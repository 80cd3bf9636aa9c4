/** Decoding nanopb messages, and its round trip with encoding. */
module PbWire {
  import opened DbFormat
  import opened Coding
  import opened PbMessage
  import opened Bits

  // ---------------------------------------------------------------- scalars

  /** pb_decode_varint: ten bytes at most, modulo 2^64. */
  function Varint64(s: Bytes): (r: Option<(nat, Bytes)>)
    ensures r.Some? ==> |r.value.1| < |s| && r.value.0 < Modulus(8)
  {
    match DecodeVarint(s, 10)
    case None => None
    case Some((v, rest)) => Some((v % Modulus(8), rest))
  }

  /** pb_decode_varint32: 32 bits, then bytes of zeros or of the sign are allowed. */
  function Varint32(s: Bytes): (r: Option<(nat, Bytes)>)
    ensures r.Some? ==> |r.value.1| < |s| && r.value.0 < Modulus(4)
  {
    if s == [] then None
    else if s[0] < 128 then Some((s[0], s[1..]))
    else MoreVarint32(s[1..], s[0] - 128, 7)
  }

  /** The bytes of such a varint from bit `bitpos` on; `result` holds the bits before. */
  function MoreVarint32(s: Bytes, result: nat, bitpos: nat): (r: Option<(nat, Bytes)>)
    requires result < Modulus(4)
    ensures r.Some? ==> |r.value.1| < |s| && r.value.0 < Modulus(4)
  {
    if s == [] then None
    else if bitpos >= 32 then
      if s[0] % 128 != 0 && (result < Modulus(4) / 2 || s[0] != SignExtension(bitpos)) then None
      else if s[0] >= 128 then MoreVarint32(s[1..], result, bitpos + 7)
      else Some((result, s[1..]))
    else
      var result' := Placed(result, s[0], bitpos);
      if s[0] >= 128 then MoreVarint32(s[1..], result', bitpos + 7)
      else if bitpos == 28 && s[0] >= 16 then None
      else Some((result', s[1..]))
  }

  function At(n: nat, bitpos: nat): nat {
    n * TwoTo(bitpos)
  }

  /** result | (byte & 0x7f) << bitpos, in 32 bits: the bits below are all there are. */
  function Placed(result: nat, byte: nat, bitpos: nat): (r: nat)
    ensures r < Modulus(4)
  {
    (result + At(byte % 128, bitpos)) % Modulus(4)
  }

  function SignExtension(bitpos: nat): nat {
    if bitpos < 63 then 0xff else 0x01
  }

  /** Casting an unsigned word to a signed one of `size` bytes. */
  function AsSigned(n: nat, size: nat): int {
    var m := n % Modulus(size);
    if m >= Modulus(size) / 2 then m - Modulus(size) else m
  }

  /** pb_dec_varint: fields of up to 32 bits are cast to 32 bits first. */
  function CastSigned(n: nat, size: nat): Option<int> {
    var svalue := if size == 8 then AsSigned(n, 8) else AsSigned(n, 4);
    if Signed(svalue, size) then Some(svalue) else None
  }

  function UnZigZag(n: nat): int {
    if n % 2 == 1 then -(n / 2) - 1 else n / 2
  }

  /** pb_make_string_substream: a length and that many bytes. */
  function Substream(s: Bytes): (r: Option<(Bytes, Bytes)>)
    ensures r.Some? ==> |r.value.0| + |r.value.1| < |s|
  {
    match Varint32(s)
    case None => None
    case Some((size, rest)) => if |rest| < size then None else Some((rest[..size], rest[size..]))
  }

  /** The field decoders other than the one for submessages. */
  function DecodeScalar(t: LType, s: Bytes): (r: Option<(Datum, Bytes)>)
    requires !t.Submessage?
    ensures r.Some? ==> |r.value.1| < |s|
  {
    match t
    case Bool =>
      (match Varint32(s)
       case None => None
       case Some((n, rest)) => Some((Int(if n != 0 then 1 else 0), rest)))
    case Varint(size) =>
      (match Varint64(s)
       case None => None
       case Some((n, rest)) =>
         match CastSigned(n, size)
         case None => None
         case Some(v) => Some((Int(v), rest)))
    case Uvarint(size) =>
      (match Varint64(s)
       case None => None
       case Some((n, rest)) => if n < Modulus(size) then Some((Int(n), rest)) else None)
    case Svarint(size) =>
      (match Varint64(s)
       case None => None
       case Some((n, rest)) => if Signed(UnZigZag(n), size) then Some((Int(UnZigZag(n)), rest)) else None)
    case Fixed32 => if |s| < 4 then None else Some((Int(DecodeFixed32(s)), s[4..]))
    case Fixed64 => if |s| < 8 then None else Some((Int(DecodeFixed64(s)), s[8..]))
    case BytesArray(capacity) =>
      (match Substream(s)
       case None => None
       case Some((data, rest)) => if |data| <= capacity then Some((Raw(data), rest)) else None)
    case Str(capacity) =>
      (match Substream(s)
       case None => None
       case Some((data, rest)) => if |data| + 1 <= capacity then Some((Raw(UpToNul(data)), rest)) else None)
    case FixedBytes(length) =>
      (match Substream(s)
       case None => None
       case Some((data, rest)) =>
         if |data| == 0 then Some((DefaultValue(t), rest))
         else if |data| == length then Some((Raw(data), rest))
         else None)
  }

  /** A string read back is what stands before its first NUL. */
  function UpToNul(s: Bytes): Bytes {
    if s == [] || s[0] == 0 then [] else [s[0]] + UpToNul(s[1..])
  }

  // ---------------------------------------------------------------- messages

  /** The state of pb_decode_noinit: the message so far, the indices of the required
      fields seen, and the fixed-count array being read with its position. */
  datatype Loop = Loop(slots: seq<Slot>, seen: set<int>, fixedField: Option<nat>, fixedSize: nat)

  function FindField(d: Desc, tag: nat, i: nat): (r: Option<nat>)
    requires i <= |d.fields|
    ensures r.Some? ==> i <= r.value < |d.fields| && d.fields[r.value].tag == tag
    ensures r.None? ==> forall j :: i <= j < |d.fields| ==> d.fields[j].tag != tag
    decreases |d.fields| - i
  {
    if i == |d.fields| then None
    else if d.fields[i].tag == tag then Some(i)
    else FindField(d, tag, i + 1)
  }

  function RequiredBefore(d: Desc, i: nat): nat
    requires i <= |d.fields|
  {
    if i == 0 then 0 else RequiredBefore(d, i - 1) + (if d.fields[i - 1].presence.Required? then 1 else 0)
  }

  /** pb_skip_field. */
  function Skip(wire: nat, s: Bytes): (r: Option<Bytes>)
    ensures r.Some? ==> |r.value| < |s|
  {
    if wire == PB_WT_VARINT then SkipVarint(s)
    else if wire == PB_WT_64BIT then (if |s| < 8 then None else Some(s[8..]))
    else if wire == PB_WT_STRING then (match Substream(s) case None => None case Some((_, rest)) => Some(rest))
    else if wire == PB_WT_32BIT then (if |s| < 4 then None else Some(s[4..]))
    else None
  }

  function SkipVarint(s: Bytes): (r: Option<Bytes>)
    ensures r.Some? ==> |r.value| < |s|
  {
    if s == [] then None else if s[0] < 128 then Some(s[1..]) else SkipVarint(s[1..])
  }

  /** The items of a packed array, as long as there is room; None if one is malformed or
      bytes are left over. */
  function DecodePacked(t: LType, s: Bytes, vs: seq<Datum>, max: nat): Option<seq<Datum>>
    requires !t.Submessage?
    decreases |s|
  {
    if s == [] then Some(vs)
    else if |vs| >= max then None
    else
      match DecodeScalar(t, s)
      case None => None
      case Some((v, rest)) => DecodePacked(t, rest, vs + [v], max)
  }

  /** One value; a submessage is merged into what is there. */
  function DecodeValue(t: LType, prev: Datum, s: Bytes): (r: Option<(Datum, Bytes)>)
    ensures r.Some? ==> |r.value.1| < |s|
    decreases t, 0
  {
    if t.Submessage? then
      match Substream(s)
      case None => None
      case Some((inner, rest)) =>
        (match DecodeMessage(t.sub, inner, if prev.Msg? && |prev.slots| == |t.sub.fields| then prev.slots else Defaults(t.sub))
         case None => None
         case Some(slots) => Some((Msg(slots), rest)))
    else DecodeScalar(t, s)
  }

  /** The other fields of the union of field `i` are not there any more. */
  function ClearUnion(d: Desc, slots: seq<Slot>, i: nat): (r: seq<Slot>)
    requires i < |d.fields| == |slots|
    ensures |r| == |slots|
  {
    seq(|slots|, j requires 0 <= j < |slots| =>
      if j != i && SameUnion(d.fields[i], d.fields[j]) then Maybe(None) else slots[j])
  }

  function PrevOf(f: Field, s: Slot): Datum {
    match s
    case Single(v) => v
    case Maybe(Some(v)) => v
    case _ => DefaultValue(f.ltype)
  }

  /** What pb_decode_noinit does about field `i` before reading it: a fixed-count array is
      begun or gone on with, a required field is noted as seen. */
  function Prepare(d: Desc, i: nat, st: Loop): (r: Option<Loop>)
    requires i < |d.fields| == |st.slots|
    ensures r.Some? ==> |r.value.slots| == |st.slots|
  {
    match d.fields[i].presence
    case Required =>
      var index := RequiredBefore(d, i);
      Some(if index < PB_MAX_REQUIRED_FIELDS then st.(seen := st.seen + {index}) else st)
    case FixedCount(_) =>
      if st.fixedField == Some(i) then Some(st)
      else if !FixedDone(d, st) then None
      else Some(st.(slots := st.slots[i := Many([])], fixedField := Some(i), fixedSize := 0))
    case _ => Some(st)
  }

  /** decode_static_field for field `i`. */
  function StaticField(d: Desc, i: nat, wire: nat, s: Bytes, slots: seq<Slot>): (r: Option<(seq<Slot>, Bytes)>)
    requires i < |d.fields| == |slots|
    ensures r.Some? ==> |r.value.1| < |s| && |r.value.0| == |slots|
    decreases d.fields[i], 2
  {
    var f := d.fields[i];
    match f.presence
    case Required =>
      (match DecodeValue(f.ltype, PrevOf(f, slots[i]), s)
       case None => None
       case Some((v, rest)) => Some((slots[i := Single(v)], rest)))
    case Implicit =>
      (match DecodeValue(f.ltype, PrevOf(f, slots[i]), s)
       case None => None
       case Some((v, rest)) => Some((slots[i := Single(v)], rest)))
    case Optional =>
      (match DecodeValue(f.ltype, PrevOf(f, slots[i]), s)
       case None => None
       case Some((v, rest)) => Some((slots[i := Maybe(Some(v))], rest)))
    case OneOf(_) =>
      (match DecodeValue(f.ltype, PrevOf(f, slots[i]), s)
       case None => None
       case Some((v, rest)) => Some((ClearUnion(d, slots, i)[i := Maybe(Some(v))], rest)))
    case Repeated(max) =>
      (match DecodeArray(f, wire, s, ItemsOf(slots[i]), max)
       case None => None
       case Some((vs, rest)) => Some((slots[i := Many(vs)], rest)))
    case FixedCount(count) =>
      match DecodeArray(f, wire, s, ItemsOf(slots[i]), count)
      case None => None
      case Some((vs, rest)) => Some((slots[i := Many(vs)], rest))
  }

  function ItemsOf(s: Slot): seq<Datum> {
    if s.Many? then s.vs else []
  }

  /** The size of a fixed-count array is kept apart from the message. */
  function Received(d: Desc, i: nat, st: Loop, slots: seq<Slot>): Loop
    requires i < |d.fields| == |slots|
  {
    st.(slots := slots, fixedSize := if d.fields[i].presence.FixedCount? then |ItemsOf(slots[i])| else st.fixedSize)
  }

  /** One round of the loop of pb_decode_noinit, for a record of field `i`. */
  function DecodeField(d: Desc, i: nat, wire: nat, s: Bytes, st: Loop): (r: Option<(Loop, Bytes)>)
    requires i < |d.fields| == |st.slots|
    ensures r.Some? ==> |r.value.1| < |s| && |r.value.0.slots| == |st.slots|
    decreases d.fields[i], 3
  {
    match Prepare(d, i, st)
    case None => None
    case Some(st1) =>
      match StaticField(d, i, wire, s, st1.slots)
      case None => None
      case Some((slots, rest)) => Some((Received(d, i, st1, slots), rest))
  }

  /** The fixed-count array last begun is full. */
  predicate FixedDone(d: Desc, st: Loop) {
    st.fixedField.Some? ==>
      && st.fixedField.value < |d.fields| && d.fields[st.fixedField.value].presence.FixedCount?
      && st.fixedSize == d.fields[st.fixedField.value].presence.count
  }

  /** A packed record adds all its items to `vs`, another record adds one. */
  function DecodeArray(f: Field, wire: nat, s: Bytes, vs: seq<Datum>, max: nat): (r: Option<(seq<Datum>, Bytes)>)
    ensures r.Some? ==> |r.value.1| < |s|
    decreases f, 1
  {
    if wire == PB_WT_STRING && Packable(f.ltype) then
      match Substream(s)
      case None => None
      case Some((inner, rest)) =>
        (match DecodePacked(f.ltype, inner, vs, max)
         case None => None
         case Some(items) => Some((items, rest)))
    else if |vs| >= max then None
    else
      match DecodeValue(f.ltype, DefaultValue(f.ltype), s)
      case None => None
      case Some((v, rest)) => Some((vs + [v], rest))
  }

  /** The loop of pb_decode_noinit; a zero key ends the message early.  An empty table
      finds tag zero in its own terminator, whose type is that of a required bool. */
  function DecodeLoop(d: Desc, s: Bytes, st: Loop): (r: Option<Loop>)
    requires |st.slots| == |d.fields|
    ensures r.Some? ==> |r.value.slots| == |d.fields|
    decreases d, 0, |s|
  {
    if s == [] then Some(st)
    else
      match Varint32(s)
      case None => None
      case Some((key, rest)) =>
        if key == 0 then Some(st)
        else
          match FindField(d, key / 8, 0)
          case None =>
            if d.fields == [] && key / 8 == 0 then
              (match Varint32(rest)
               case None => None
               case Some((_, rest')) => DecodeLoop(d, rest', st.(seen := st.seen + {0})))
            else
              (match Skip(key % 8, rest)
               case None => None
               case Some(rest') => DecodeLoop(d, rest', st))
          case Some(i) =>
            match DecodeField(d, i, key % 8, rest, st)
            case None => None
            case Some((st', rest')) => DecodeLoop(d, rest', st')
  }

  /** Each of the first 64 required fields must have occurred. */
  predicate RequiredSeen(d: Desc, seen: set<int>) {
    forall k :: 0 <= k < RequiredBefore(d, |d.fields|) && k < PB_MAX_REQUIRED_FIELDS ==> k in seen
  }

  /** pb_decode_noinit. */
  function DecodeMessage(d: Desc, s: Bytes, slots: seq<Slot>): (r: Option<seq<Slot>>)
    requires |slots| == |d.fields|
    ensures r.Some? ==> |r.value| == |d.fields|
    decreases d, 1
  {
    match DecodeLoop(d, s, Loop(slots, {}, None, 0))
    case None => None
    case Some(st) => if FixedDone(d, st) && RequiredSeen(d, st.seen) then Some(st.slots) else None
  }

  /** pb_decode. */
  function Decode(d: Desc, s: Bytes): Option<seq<Slot>> {
    DecodeMessage(d, s, Defaults(d))
  }

  // ---------------------------------------------------------------- scalar round trips

  lemma Varint64RoundTrip(n: nat, rest: Bytes)
    requires n < Modulus(8)
    ensures Varint64(EncodeVarint(n) + rest) == Some((n, rest))
  {
    hide EncodeVarint, DecodeVarint;
    assert n < Pow128(10) by {
      Pow128Values();
    }
    hide Pow128;
    VarintRoundTrip(n, 10, rest);
  }

  lemma Varint32RoundTrip(n: nat, rest: Bytes)
    requires n < Modulus(4)
    ensures Varint32(EncodeVarint(n) + rest) == Some((n, rest))
  {
    if n >= 128 {
      assert (EncodeVarint(n) + rest)[1..] == EncodeVarint(n / 128) + rest;
      TwoToValues();
      MoreRoundTrip(n / 128, n % 128, 7, rest);
      assert n % 128 + At(n / 128, 7) == n;
    }
  }

  lemma TwoToValues()
    ensures TwoTo(4) == 0x10 && TwoTo(11) == 0x800 && TwoTo(18) == 0x4_0000 && TwoTo(25) == 0x200_0000
    ensures TwoTo(7) == 0x80 && TwoTo(14) == 0x4000 && TwoTo(21) == 0x20_0000 && TwoTo(28) == 0x1000_0000
  {
    assert TwoTo(4) == 16;
    assert TwoTo(7) == 8 * TwoTo(4);
    assert TwoTo(11) == 16 * TwoTo(7);
    assert TwoTo(14) == 8 * TwoTo(11);
    assert TwoTo(18) == 16 * TwoTo(14);
    assert TwoTo(21) == 8 * TwoTo(18);
    assert TwoTo(25) == 16 * TwoTo(21);
    assert TwoTo(28) == 8 * TwoTo(25);
  }

  /** Bits go in above those there already, and fit. */
  lemma BitsFit(n: nat, result: nat, bitpos: nat)
    requires bitpos == 7 || bitpos == 14 || bitpos == 21 || bitpos == 28
    requires result < TwoTo(bitpos) && n < TwoTo(32 - bitpos)
    ensures result + At(n, bitpos) < Modulus(4)
    ensures bitpos == 28 ==> n < 16
  {
    TwoToValues();
  }

  lemma NextBits(n: nat, result: nat, bitpos: nat)
    requires bitpos == 7 || bitpos == 14 || bitpos == 21
    requires result < TwoTo(bitpos) && n < TwoTo(32 - bitpos)
    ensures n / 128 < TwoTo(25 - bitpos) && result + At(n % 128, bitpos) < TwoTo(bitpos + 7) <= Modulus(4)
    ensures result + At(n % 128, bitpos) + At(n / 128, bitpos + 7) == result + At(n, bitpos)
  {
    TwoToValues();
  }

  lemma {:induction false} MoreRoundTrip(n: nat, result: nat, bitpos: nat, rest: Bytes)
    requires bitpos == 7 || bitpos == 14 || bitpos == 21 || bitpos == 28
    requires n > 0 && result < Modulus(4) && result < TwoTo(bitpos) && n < TwoTo(32 - bitpos)
    ensures MoreVarint32(EncodeVarint(n) + rest, result, bitpos) == Some((result + At(n, bitpos), rest))
    decreases 28 - bitpos
  {
    hide TwoTo, At, Placed, EncodeVarint, MoreVarint32;
    if n < 128 {
      LastByte(n, result, bitpos, rest);
    } else {
      BitsFit(n, result, bitpos);
      var s, result' := EncodeVarint(n) + rest, result + At(n % 128, bitpos);
      FirstByte(n, rest);
      NextBits(n, result, bitpos);
      PlacedIs(result, s[0], bitpos);
      OneByteOn(s, result, bitpos);
      MoreRoundTrip(n / 128, result', bitpos + 7, rest);
    }
  }

  lemma LastByte(n: nat, result: nat, bitpos: nat, rest: Bytes)
    requires bitpos == 7 || bitpos == 14 || bitpos == 21 || bitpos == 28
    requires n < 128 && result < Modulus(4) && result < TwoTo(bitpos) && n < TwoTo(32 - bitpos)
    ensures MoreVarint32(EncodeVarint(n) + rest, result, bitpos) == Some((result + At(n, bitpos), rest))
  {
    hide TwoTo, At;
    BitsFit(n, result, bitpos);
    assert EncodeVarint(n) + rest == [n] + rest;
    Small(result + At(n, bitpos));
  }

  lemma FirstByte(n: nat, rest: Bytes)
    requires n >= 128
    ensures var s := EncodeVarint(n) + rest;
            s[0] >= 128 && s[0] % 128 == n % 128 && s[1..] == EncodeVarint(n / 128) + rest && n / 128 > 0
  {
    var b, more := n % 128 + 128, EncodeVarint(n / 128);
    assert EncodeVarint(n) == [b] + more;
    hide EncodeVarint;
    assert [b] + more + rest == [b] + (more + rest);
    Payload(n % 128);
  }

  lemma Payload(bits: nat)
    requires bits < 128
    ensures (bits + 128) % 128 == bits
  {
  }

  lemma PlacedIs(result: nat, byte: nat, bitpos: nat)
    requires result + At(byte % 128, bitpos) < Modulus(4)
    ensures Placed(result, byte, bitpos) == result + At(byte % 128, bitpos)
  {
    Small(result + At(byte % 128, bitpos));
  }

  lemma OneByteOn(s: Bytes, result: nat, bitpos: nat)
    requires s != [] && s[0] >= 128 && bitpos < 32 && result < Modulus(4)
    ensures MoreVarint32(s, result, bitpos) == MoreVarint32(s[1..], Placed(result, s[0], bitpos), bitpos + 7)
  {
  }

  lemma Small(n: nat)
    requires n < Modulus(4)
    ensures n % Modulus(4) == n
  {
  }

  lemma SubstreamRoundTrip(data: Bytes, rest: Bytes)
    requires |data| < Modulus(4)
    ensures Substream(LengthPrefixed(data) + rest) == Some((data, rest))
  {
    Varint32RoundTrip(|data|, data + rest);
    assert LengthPrefixed(data) + rest == EncodeVarint(|data|) + (data + rest);
  }

  /** Narrow signed values survive the cast to 64 bits and back. */
  lemma SignedRoundTrip(n: int, size: nat)
    requires SizeOk(size) && Signed(n, size)
    ensures Signed(n, 8) && CastSigned(AsUnsigned(n), size) == Some(n)
  {
    if size == 8 {
      assert AsSigned(AsUnsigned(n), 8) == n;
    } else {
      NarrowCast(n);
    }
  }

  lemma NarrowCast(n: int)
    requires Signed(n, 4)
    ensures Signed(n, 8) && AsSigned(AsUnsigned(n), 4) == n
  {
    if n < 0 {
      assert (n + Modulus(8)) % Modulus(4) == n + Modulus(4);
    }
  }

  lemma ZigZagRoundTrip(n: int)
    requires Signed(n, 8)
    ensures ZigZag(n) < Modulus(8) && UnZigZag(ZigZag(n)) == n
  {
  }

  lemma NoNul(s: Bytes)
    requires 0 !in s
    ensures UpToNul(s) == s
  {
    if s != [] {
      assert s[0] in s;
      assert s == [s[0]] + s[1..];
      NoNul(s[1..]);
    }
  }

  /** Every scalar type decodes what it encodes. */
  lemma ScalarRoundTrip(t: LType, v: Datum, rest: Bytes)
    requires !t.Submessage? && LTypeOk(t) && ValueOk(t, v)
    ensures DecodeScalar(t, EncodeValue(t, v) + rest) == Some((v, rest))
  {
    hide EncodeVarint, LengthPrefixed, Substream, Varint64, Varint32, EncodeFixed32, EncodeFixed64, DecodeFixed32, DecodeFixed64;
    match t
    case Bool => Varint32RoundTrip(v.n, rest);
    case Varint(size) =>
      SignedRoundTrip(v.n, size);
      Varint64RoundTrip(AsUnsigned(v.n), rest);
    case Uvarint(size) => Varint64RoundTrip(v.n, rest);
    case Svarint(size) =>
      ZigZagRoundTrip(v.n);
      Varint64RoundTrip(ZigZag(v.n), rest);
    case Fixed32 =>
      Fixed32RoundTrip(v.n, rest);
      assert (EncodeFixed32(v.n) + rest)[4..] == rest;
    case Fixed64 =>
      Fixed64RoundTrip(v.n, rest);
      assert (EncodeFixed64(v.n) + rest)[8..] == rest;
    case BytesArray(_) => SubstreamRoundTrip(v.data, rest);
    case Str(_) =>
      SubstreamRoundTrip(v.data, rest);
      NoNul(v.data);
    case FixedBytes(_) => SubstreamRoundTrip(v.data, rest);
  }

  lemma {:induction false} PackedRoundTrip(t: LType, vs: seq<Datum>, before: seq<Datum>, max: nat)
    requires Packable(t) && LTypeOk(t) && AllOk(t, vs) && |before| + |vs| <= max
    ensures DecodePacked(t, EncodeItems(t, vs), before, max) == Some(before + vs)
    decreases |vs|
  {
    hide DecodeScalar, EncodeValue;
    if vs == [] {
      assert before + vs == before;
    } else {
      ScalarRoundTrip(t, vs[0], EncodeItems(t, vs[1..]));
      PackedRoundTrip(t, vs[1..], before + [vs[0]], max);
      assert before + [vs[0]] + vs[1..] == before + vs;
      NotEmpty(t, vs[0]);
    }
  }

  lemma NotEmpty(t: LType, v: Datum)
    requires LTypeOk(t) && ValueOk(t, v)
    ensures EncodeValue(t, v) != []
  {
  }

  // ---------------------------------------------------------------- message round trip

  lemma TagRoundTrip(tag: nat, wire: nat, rest: Bytes)
    requires 1 <= tag < 0x2000_0000 && wire < 8
    ensures Varint32(TagBytes(tag, wire) + rest) == Some((tag * 8 + wire, rest))
    ensures (tag * 8 + wire) / 8 == tag && (tag * 8 + wire) % 8 == wire && tag * 8 + wire != 0
  {
    Varint32RoundTrip(tag * 8 + wire, rest);
  }

  lemma FindUnique(d: Desc, i: nat, j: nat)
    requires DescOk(d) && j <= i < |d.fields|
    ensures FindField(d, d.fields[i].tag, j) == Some(i)
    decreases i - j
  {
    if j < i {
      FindUnique(d, i, j + 1);
    }
  }

  /** One round of the loop over a record of field `i`. */
  lemma OneRecord(d: Desc, i: nat, wire: nat, body: Bytes, rest: Bytes, st: Loop, st': Loop)
    requires DescOk(d) && i < |d.fields| == |st.slots| == |st'.slots| && wire < 8
    requires DecodeField(d, i, wire, body + rest, st) == Some((st', rest))
    ensures DecodeLoop(d, TagBytes(d.fields[i].tag, wire) + body + rest, st) == DecodeLoop(d, rest, st')
  {
    hide DecodeField, Varint32, TagBytes;
    var s := TagBytes(d.fields[i].tag, wire) + body + rest;
    assert s == TagBytes(d.fields[i].tag, wire) + (body + rest);
    TagRoundTrip(d.fields[i].tag, wire, body + rest);
    FindUnique(d, i, 0);
    TagNotEmpty(d.fields[i].tag, wire);
  }

  lemma TagNotEmpty(tag: nat, wire: nat)
    ensures TagBytes(tag, wire) != []
  {
  }

  /** The message with its first `i` fields filled in. */
  ghost function Filled(d: Desc, slots: seq<Slot>, i: nat): (r: seq<Slot>)
    requires i <= |slots| == |d.fields|
    ensures |r| == |slots|
    ensures forall j :: 0 <= j < |r| ==> r[j] == if j < i then slots[j] else DefaultSlot(d.fields[j])
  {
    slots[..i] + Defaults(d)[i..]
  }

  /** What the decoder knows after the first `i` fields. */
  ghost function StateAt(d: Desc, slots: seq<Slot>, i: nat): Loop
    requires i <= |slots| == |d.fields|
  {
    var last := LastFixed(d, i);
    Loop(Filled(d, slots, i), SeenAt(d, i), last, if last.Some? then d.fields[last.value].presence.count else 0)
  }

  ghost function SeenAt(d: Desc, i: nat): set<int>
    requires i <= |d.fields|
  {
    FirstNumbers(if RequiredBefore(d, i) < PB_MAX_REQUIRED_FIELDS then RequiredBefore(d, i) else PB_MAX_REQUIRED_FIELDS)
  }

  function FirstNumbers(n: nat): (r: set<int>)
    ensures forall k :: k in r <==> 0 <= k < n
  {
    if n == 0 then {} else FirstNumbers(n - 1) + {n - 1}
  }

  ghost function LastFixed(d: Desc, i: nat): (r: Option<nat>)
    requires i <= |d.fields|
    ensures r.Some? ==> r.value < i && d.fields[r.value].presence.FixedCount?
  {
    if i == 0 then None
    else if d.fields[i - 1].presence.FixedCount? then Some(i - 1)
    else LastFixed(d, i - 1)
  }

  /** Putting the right contents in slot `i` is all that changes. */
  lemma FilledStep(d: Desc, slots: seq<Slot>, i: nat)
    requires i < |slots| == |d.fields|
    ensures Filled(d, slots, i)[i := slots[i]] == Filled(d, slots, i + 1)
    ensures Filled(d, slots, i)[i] == DefaultSlot(d.fields[i])
    ensures slots[i] == DefaultSlot(d.fields[i]) ==> Filled(d, slots, i + 1) == Filled(d, slots, i)
  {
    assert Filled(d, slots, i)[i := slots[i]] == Filled(d, slots, i + 1);
  }

  lemma SeenStep(d: Desc, i: nat)
    requires i < |d.fields|
    ensures !d.fields[i].presence.Required? ==> SeenAt(d, i + 1) == SeenAt(d, i)
    ensures d.fields[i].presence.Required? ==>
              SeenAt(d, i + 1) ==
              if RequiredBefore(d, i) < PB_MAX_REQUIRED_FIELDS then SeenAt(d, i) + {RequiredBefore(d, i)} else SeenAt(d, i)
  {
  }

  /** Nothing of the same union is there when a union member is read. */
  lemma UnionClear(d: Desc, slots: seq<Slot>, i: nat)
    requires SlotsOk(d, slots) && i < |slots| && d.fields[i].presence.OneOf? && slots[i] != Maybe(None)
    ensures ClearUnion(d, Filled(d, slots, i), i) == Filled(d, slots, i)
  {
    forall j | 0 <= j < |slots| && j != i && SameUnion(d.fields[i], d.fields[j])
      ensures Filled(d, slots, i)[j] == Maybe(None)
    {
      if j < i {
        assert SameUnion(d.fields[j], d.fields[i]);
      }
    }
  }

  /** A value of any type decodes to itself, given room for its length. */
  lemma {:induction false} DatumRoundTrip(t: LType, v: Datum, rest: Bytes)
    requires LTypeOk(t) && ValueOk(t, v) && |EncodeValue(t, v)| < Modulus(4)
    ensures DecodeValue(t, DefaultValue(t), EncodeValue(t, v) + rest) == Some((v, rest))
    decreases t, 0
  {
    hide DecodeScalar, DecodeMessage, EncodeFields, Substream, LengthPrefixed;
    if t.Submessage? {
      var inner := EncodeFields(t.sub, v.slots, 0);
      PrefixedLonger(inner);
      SubstreamRoundTrip(inner, rest);
      MessageRoundTrip(t.sub, v.slots);
    } else {
      ScalarRoundTrip(t, v, rest);
    }
  }

  lemma PrefixedLonger(data: Bytes)
    ensures |data| < |LengthPrefixed(data)|
  {
  }

  /** Decoding the encoding of a well-typed message, of less than 2^32 bytes, gives the
      message back. */
  lemma {:induction false} MessageRoundTrip(d: Desc, slots: seq<Slot>)
    requires DescOk(d) && SlotsOk(d, slots) && |EncodeFields(d, slots, 0)| < Modulus(4)
    ensures DecodeMessage(d, EncodeFields(d, slots, 0), Defaults(d)) == Some(slots)
    decreases d, 2
  {
    hide DecodeLoop, EncodeFields, DescOk, SlotsOk, Filled, SeenAt, LastFixed, FixedDone, RequiredSeen;
    FieldsRoundTrip(d, slots, 0);
    StateAtStart(d, slots);
    StateAtEnd(d, slots);
  }

  lemma StateAtStart(d: Desc, slots: seq<Slot>)
    requires |slots| == |d.fields|
    ensures StateAt(d, slots, 0) == Loop(Defaults(d), {}, None, 0)
  {
    assert Filled(d, slots, 0) == Defaults(d);
  }

  lemma StateAtEnd(d: Desc, slots: seq<Slot>)
    requires |slots| == |d.fields|
    ensures StateAt(d, slots, |slots|).slots == slots
    ensures FixedDone(d, StateAt(d, slots, |slots|)) && RequiredSeen(d, StateAt(d, slots, |slots|).seen)
  {
    assert Filled(d, slots, |slots|) == slots;
  }

  lemma {:induction false} FieldsRoundTrip(d: Desc, slots: seq<Slot>, i: nat)
    requires DescOk(d) && SlotsOk(d, slots) && i <= |slots| && |EncodeFields(d, slots, i)| < Modulus(4)
    ensures DecodeLoop(d, EncodeFields(d, slots, i), StateAt(d, slots, i)) == Some(StateAt(d, slots, |slots|))
    decreases d, 1, |slots| - i
  {
    hide StateAt, EncodeSlot;
    if i < |slots| {
      FieldRoundTrip(d, slots, i, EncodeFields(d, slots, i + 1));
      FieldsRoundTrip(d, slots, i + 1);
    }
  }

  /** The records of field `i`, whatever follows them, fill in slot `i`. */
  lemma {:induction false} FieldRoundTrip(d: Desc, slots: seq<Slot>, i: nat, rest: Bytes)
    requires DescOk(d) && SlotsOk(d, slots) && i < |slots| == |d.fields|
    requires SlotOk(d.fields[i], slots[i]) && |EncodeSlot(d.fields[i], slots[i])| < Modulus(4)
    ensures DecodeLoop(d, EncodeSlot(d.fields[i], slots[i]) + rest, StateAt(d, slots, i)) == DecodeLoop(d, rest, StateAt(d, slots, i + 1))
    decreases d, 0
  {
    hide DecodeLoop, EncodeArray, EncodeTagged;
    var f, s := d.fields[i], slots[i];
    match f.presence
    case Required => SingleRoundTrip(d, slots, i, s.v, rest);
    case Implicit =>
      if IsDefaultValue(f.ltype, s.v) {
        DefaultIsDefault(f.ltype, s.v);
        AbsentStep(d, slots, i, rest);
      } else {
        SingleRoundTrip(d, slots, i, s.v, rest);
      }
    case Optional =>
      if s.o.Some? {
        SingleRoundTrip(d, slots, i, s.o.value, rest);
      } else {
        AbsentStep(d, slots, i, rest);
      }
    case OneOf(_) =>
      if s.o.Some? {
        SingleRoundTrip(d, slots, i, s.o.value, rest);
      } else {
        AbsentStep(d, slots, i, rest);
      }
    case Repeated(max) => ArrayRoundTrip(d, slots, i, max, rest);
    case FixedCount(count) => ArrayRoundTrip(d, slots, i, count, rest);
  }

  /** A field that is not encoded leaves everything as the defaults made it. */
  lemma AbsentStep(d: Desc, slots: seq<Slot>, i: nat, rest: Bytes)
    requires i < |slots| == |d.fields| && slots[i] == DefaultSlot(d.fields[i])
    requires !d.fields[i].presence.Required? && !d.fields[i].presence.FixedCount?
    ensures StateAt(d, slots, i + 1) == StateAt(d, slots, i) && [] + rest == rest
  {
    FilledStep(d, slots, i);
    SeenStep(d, i);
  }

  /** One tagged value of a field that is not an array. */
  lemma {:induction false} SingleRoundTrip(d: Desc, slots: seq<Slot>, i: nat, v: Datum, rest: Bytes)
    requires DescOk(d) && SlotsOk(d, slots) && i < |slots| == |d.fields|
    requires FieldOk(d.fields[i]) && ValueOk(d.fields[i].ltype, v) && |EncodeTagged(d.fields[i], v)| < Modulus(4)
    requires slots[i] == Single(v) || slots[i] == Maybe(Some(v))
    requires slots[i].Single? <==> d.fields[i].presence.Required? || d.fields[i].presence.Implicit?
    requires slots[i].Maybe? <==> d.fields[i].presence.Optional? || d.fields[i].presence.OneOf?
    ensures DecodeLoop(d, EncodeTagged(d.fields[i], v) + rest, StateAt(d, slots, i)) == DecodeLoop(d, rest, StateAt(d, slots, i + 1))
    decreases d.fields[i], 0
  {
    hide DecodeLoop, DecodeValue, EncodeValue, TagBytes, SlotsOk, DescOk;
    var f := d.fields[i];
    DatumRoundTrip(f.ltype, v, rest);
    FilledStep(d, slots, i);
    SeenStep(d, i);
    if f.presence.OneOf? {
      UnionClear(d, slots, i);
    }
    assert DecodeField(d, i, WireType(f.ltype), EncodeValue(f.ltype, v) + rest, StateAt(d, slots, i)) ==
           Some((StateAt(d, slots, i + 1), rest));
    OneRecord(d, i, WireType(f.ltype), EncodeValue(f.ltype, v), rest, StateAt(d, slots, i), StateAt(d, slots, i + 1));
  }

  /** The state while an array is being read: `vs` of its items are there. */
  ghost function Reading(d: Desc, slots: seq<Slot>, i: nat, vs: seq<Datum>): Loop
    requires i < |slots| == |d.fields|
  {
    var st := StateAt(d, slots, i);
    var st' := st.(slots := st.slots[i := Many(vs)]);
    if d.fields[i].presence.FixedCount? then st'.(fixedField := Some(i), fixedSize := |vs|) else st'
  }

  lemma ReadingEnds(d: Desc, slots: seq<Slot>, i: nat, vs: seq<Datum>)
    requires i < |slots| == |d.fields| && slots[i] == Many(vs)
    requires d.fields[i].presence.Repeated? || (d.fields[i].presence.FixedCount? && |vs| == d.fields[i].presence.count)
    ensures Reading(d, slots, i, vs) == StateAt(d, slots, i + 1)
  {
    FilledStep(d, slots, i);
    SeenStep(d, i);
  }

  lemma ReadingStarts(d: Desc, slots: seq<Slot>, i: nat)
    requires i < |slots| == |d.fields| && d.fields[i].presence.Repeated?
    ensures Reading(d, slots, i, []) == StateAt(d, slots, i)
  {
    FilledStep(d, slots, i);
    assert StateAt(d, slots, i).slots[i := Many([])] == StateAt(d, slots, i).slots;
  }

  /** decode_static_field on one record of an array, whether it is the first or not. */
  lemma ArrayRecord(d: Desc, slots: seq<Slot>, i: nat, wire: nat, body: Bytes, rest: Bytes, vs: seq<Datum>,
      vs': seq<Datum>, max: nat, first: bool)
    requires i < |slots| == |d.fields|
    requires d.fields[i].presence == Repeated(max) || d.fields[i].presence == FixedCount(max)
    requires first ==> vs == []
    requires DecodeArray(d.fields[i], wire, body + rest, vs, max) == Some((vs', rest))
    ensures DecodeField(d, i, wire, body + rest, if first then StateAt(d, slots, i) else Reading(d, slots, i, vs)) ==
            Some((Reading(d, slots, i, vs'), rest))
  {
    hide DecodeArray;
    var st := StateAt(d, slots, i);
    FilledStep(d, slots, i);
    assert st.slots[i := Many(vs)][i := Many(vs')] == st.slots[i := Many(vs')];
    if d.fields[i].presence.Repeated? {
      if first {
        ReadingStarts(d, slots, i);
      }
    } else {
      LastFixedBefore(d, i);
    }
  }

  lemma LastFixedBefore(d: Desc, i: nat)
    requires i < |d.fields|
    ensures LastFixed(d, i) != Some(i)
  {
  }

  lemma {:induction false} ArrayRoundTrip(d: Desc, slots: seq<Slot>, i: nat, max: nat, rest: Bytes)
    requires DescOk(d) && SlotsOk(d, slots) && i < |slots| == |d.fields| && slots[i].Many?
    requires d.fields[i].presence == Repeated(max) || d.fields[i].presence == FixedCount(max)
    requires |slots[i].vs| <= max && (d.fields[i].presence.FixedCount? ==> |slots[i].vs| == max > 0)
    requires FieldOk(d.fields[i]) && AllOk(d.fields[i].ltype, slots[i].vs) && |EncodeArray(d.fields[i], slots[i].vs)| < Modulus(4)
    ensures DecodeLoop(d, EncodeArray(d.fields[i], slots[i].vs) + rest, StateAt(d, slots, i)) == DecodeLoop(d, rest, StateAt(d, slots, i + 1))
    decreases d.fields[i], 2
  {
    hide DecodeLoop, DecodeField, DecodeValue, TagBytes, SlotsOk, DescOk, EncodeItems, EncodeUnpacked, Reading, StateAt, LengthPrefixed;
    var f, vs := d.fields[i], slots[i].vs;
    if vs == [] {
      ReadingStarts(d, slots, i);
      ReadingEnds(d, slots, i, vs);
      assert [] + rest == rest;
    } else if Packable(f.ltype) {
      var items := EncodeItems(f.ltype, vs);
      PrefixedLonger(items);
      SubstreamRoundTrip(items, rest);
      PackedRoundTrip(f.ltype, vs, [], max);
      assert [] + vs == vs;
      ReadingSlot(d, slots, i, []);
      ArrayRecord(d, slots, i, PB_WT_STRING, LengthPrefixed(items), rest, [], vs, max, true);
      ReadingEnds(d, slots, i, vs);
      StateLength(d, slots, i);
      StateLength(d, slots, i + 1);
      OneRecord(d, i, PB_WT_STRING, LengthPrefixed(items), rest, StateAt(d, slots, i), StateAt(d, slots, i + 1));
    } else {
      assert vs[0..] == vs && vs[..0] == [];
      UnpackedRoundTrip(d, slots, i, max, 0, rest);
      ReadingEnds(d, slots, i, vs);
    }
  }

  lemma ReadingSlot(d: Desc, slots: seq<Slot>, i: nat, vs: seq<Datum>)
    requires i < |slots| == |d.fields|
    ensures |Reading(d, slots, i, vs).slots| == |slots| && Reading(d, slots, i, vs).slots[i] == Many(vs)
  {
  }

  /** An array whose items are encoded one record each, from item `k` on. */
  lemma {:induction false} UnpackedRoundTrip(d: Desc, slots: seq<Slot>, i: nat, max: nat, k: nat, rest: Bytes)
    requires DescOk(d) && SlotsOk(d, slots) && i < |slots| == |d.fields| && slots[i].Many? && k <= |slots[i].vs| <= max
    requires d.fields[i].presence == Repeated(max) || d.fields[i].presence == FixedCount(max)
    requires FieldOk(d.fields[i]) && AllOk(d.fields[i].ltype, slots[i].vs) && !Packable(d.fields[i].ltype)
    requires AllOk(d.fields[i].ltype, slots[i].vs[k..]) && |EncodeUnpacked(d.fields[i], slots[i].vs[k..])| < Modulus(4)
    requires k == 0 ==> slots[i].vs != []
    ensures DecodeLoop(d, EncodeUnpacked(d.fields[i], slots[i].vs[k..]) + rest,
                       if k == 0 then StateAt(d, slots, i) else Reading(d, slots, i, slots[i].vs[..k])) ==
            DecodeLoop(d, rest, Reading(d, slots, i, slots[i].vs))
    decreases d.fields[i], 1, |slots[i].vs| - k
  {
    hide DecodeLoop, DecodeField, DecodeValue, TagBytes, SlotsOk, DescOk, Reading, StateAt, EncodeValue;
    var f, vs := d.fields[i], slots[i].vs;
    if k == |vs| {
      assert vs[..k] == vs && [] + rest == rest;
    } else {
      var v, later := vs[k], EncodeUnpacked(f, vs[k + 1..]);
      assert vs[k..][0] == v && vs[k..][1..] == vs[k + 1..];
      assert vs[..k] + [v] == vs[..k + 1];
      var body := EncodeValue(f.ltype, v);
      DatumRoundTrip(f.ltype, v, later + rest);
      ReadingSlot(d, slots, i, vs[..k]);
      ReadingSlot(d, slots, i, vs[..k + 1]);
      ArrayRecord(d, slots, i, WireType(f.ltype), body, later + rest, vs[..k], vs[..k + 1], max, k == 0);
      var st := if k == 0 then StateAt(d, slots, i) else Reading(d, slots, i, vs[..k]);
      StateLength(d, slots, i);
      OneRecord(d, i, WireType(f.ltype), body, later + rest, st, Reading(d, slots, i, vs[..k + 1]));
      assert TagBytes(f.tag, WireType(f.ltype)) + body + (later + rest) == EncodeTagged(f, v) + later + rest;
      UnpackedRoundTrip(d, slots, i, max, k + 1, rest);
    }
  }

  lemma StateLength(d: Desc, slots: seq<Slot>, i: nat)
    requires i <= |slots| == |d.fields|
    ensures |StateAt(d, slots, i).slots| == |slots|
  {
  }
}
