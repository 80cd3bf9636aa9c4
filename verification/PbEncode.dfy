/** pb_encode.c: the encoder, which runs twice over every submessage: once to count its
    bytes and once to write them. */
module PbEncode {
  import opened DbFormat
  import opened Coding
  import Common = PbCommon
  import opened PbMessage

  /** What the encoder can report; `SizeChanged` is "submsg size changed". */
  datatype Status = Ok | StreamFull | SizeChanged

  class OStream {
    // No callback: the stream only counts.
    const sizing: bool
    const maxSize: nat
    var state: Bytes
    var bytesWritten: nat

    ghost predicate Valid()
      reads this
    {
      sizing || bytesWritten <= maxSize
    }

    /** PB_OSTREAM_SIZING. */
    constructor Sizing()
      ensures Valid() && sizing && bytesWritten == 0 && state == []
    {
      sizing, maxSize, state, bytesWritten := true, 0, [], 0;
    }

    /** A stream that writes at most `maxSize` bytes after what `state` already holds. */
    constructor Writing(state: Bytes, maxSize: nat)
      ensures Valid() && !sizing && this.maxSize == maxSize && bytesWritten == 0 && this.state == state
    {
      this.sizing, this.maxSize, this.state, bytesWritten := false, maxSize, state, 0;
    }

    /** What becomes of a stream when `e` is sent to it: it fails exactly if `e` does not
        fit, and then only ever because the stream is full. */
    ghost predicate Took(before: Bytes, count: nat, e: Bytes, status: Status)
      reads this
    {
      && Valid()
      && (status == Ok <==> sizing || count + |e| <= maxSize)
      && (status == Ok ==> bytesWritten == count + |e| && state == if sizing then before else before + e)
      && (status != Ok ==> status == StreamFull)
    }

    /** pb_write. */
    method Write(buf: Bytes) returns (status: Status)
      requires Valid()
      modifies this
      ensures Took(old(state), old(bytesWritten), buf, status)
    {
      if |buf| > 0 && !sizing {
        if bytesWritten + |buf| > maxSize {
          return StreamFull;
        }
        state := state + buf;
      }
      assert |buf| == 0 ==> state + buf == state;
      bytesWritten := bytesWritten + |buf|;
      return Ok;
    }

    /** pb_write without data, on a stream that only counts. */
    method Count(size: nat)
      requires Valid() && sizing
      modifies this
      ensures Valid() && bytesWritten == old(bytesWritten) + size && state == old(state)
    {
      bytesWritten := bytesWritten + size;
    }
  }

  /** Two writes one after the other are one write of both. */
  lemma TookBoth(s: OStream, before: Bytes, count: nat, a: Bytes, b: Bytes, middle: Bytes, n: nat, status: Status)
    requires s.sizing || count + |a| <= s.maxSize
    requires n == count + |a| && middle == if s.sizing then before else before + a
    requires s.Took(middle, n, b, status)
    ensures s.Took(before, count, a + b, status)
  {
    assert before + a + b == before + (a + b);
  }

  /** If the first write fails, so does the whole. */
  lemma TookNothing(s: OStream, before: Bytes, count: nat, a: Bytes, b: Bytes, status: Status)
    requires status != Ok && s.Took(before, count, a, status)
    ensures s.Took(before, count, a + b, status)
  {
  }

  /** pb_encode_varint: the bytes are put together in a buffer, then written. */
  method EncodeVarintTo(stream: OStream, n: nat) returns (status: Status)
    requires stream.Valid()
    modifies stream
    ensures stream.Took(old(stream.state), old(stream.bytesWritten), EncodeVarint(n), status)
  {
    if n <= 0x7f {
      status := stream.Write([n]);
      return;
    }
    var buffer: Bytes, value := [], n;
    while value >= 128
      invariant buffer + EncodeVarint(value) == EncodeVarint(n)
      invariant stream.state == old(stream.state) && stream.bytesWritten == old(stream.bytesWritten)
    {
      buffer := buffer + [value % 128 + 128];
      value := value / 128;
    }
    // The last byte goes in without its top bit.
    buffer := buffer + [value];
    status := stream.Write(buffer);
  }

  method EncodeTagTo(stream: OStream, wire: nat, tag: nat) returns (status: Status)
    requires stream.Valid()
    modifies stream
    ensures stream.Took(old(stream.state), old(stream.bytesWritten), TagBytes(tag, wire), status)
  {
    status := EncodeVarintTo(stream, tag * 8 + wire);
  }

  /** pb_encode_string: a length, then the bytes. */
  method EncodeStringTo(stream: OStream, data: Bytes) returns (status: Status)
    requires stream.Valid()
    modifies stream
    ensures stream.Took(old(stream.state), old(stream.bytesWritten), LengthPrefixed(data), status)
  {
    hide EncodeVarint;
    ghost var before, count := stream.state, stream.bytesWritten;
    status := EncodeVarintTo(stream, |data|);
    if status != Ok {
      TookNothing(stream, before, count, EncodeVarint(|data|), data, status);
      return;
    }
    ghost var middle, n := stream.state, stream.bytesWritten;
    status := stream.Write(data);
    TookBoth(stream, before, count, EncodeVarint(|data|), data, middle, n, status);
  }

  // ---------------------------------------------------------------- values

  /** pb_enc_bool, pb_enc_varint and so on: one value of the type. */
  method EncodeDatum(stream: OStream, t: LType, v: Datum) returns (status: Status)
    requires stream.Valid() && LTypeOk(t) && ValueOk(t, v)
    modifies stream
    ensures stream.Took(old(stream.state), old(stream.bytesWritten), EncodeValue(t, v), status)
    decreases t, 1
  {
    hide OStream.Took, EncodeVarint, EncodeFields, SlotsOk;
    match t
    case Bool => status := EncodeVarintTo(stream, v.n);
    case Varint(size) =>
      Wide(v.n, size);
      status := EncodeVarintTo(stream, if v.n < 0 then v.n + Modulus(8) else v.n);
    case Uvarint(_) => status := EncodeVarintTo(stream, v.n);
    case Svarint(size) =>
      Wide(v.n, size);
      // ~(value << 1) for a negative value, value << 1 otherwise.
      status := EncodeVarintTo(stream, if v.n < 0 then Modulus(8) - 1 - (2 * v.n + Modulus(8)) else 2 * v.n);
    case Fixed32 => status := stream.Write(EncodeFixed32(v.n));
    case Fixed64 => status := stream.Write(EncodeFixed64(v.n));
    case BytesArray(_) => status := EncodeStringTo(stream, v.data);
    case Str(_) => status := EncodeStringTo(stream, v.data);
    case FixedBytes(_) => status := EncodeStringTo(stream, v.data);
    case Submessage(sub) => status := EncodeSubmessage(stream, sub, v.slots);
  }

  lemma Wide(n: int, size: nat)
    requires SizeOk(size) && Signed(n, size)
    ensures Signed(n, 8)
  {
  }

  /** pb_encode_submessage: the size is found with a stream that only counts; the second
      pass writes exactly that many bytes. */
  method EncodeSubmessage(stream: OStream, sub: Desc, slots: seq<Slot>) returns (status: Status)
    requires stream.Valid() && DescOk(sub) && SlotsOk(sub, slots)
    modifies stream
    ensures stream.Took(old(stream.state), old(stream.bytesWritten), LengthPrefixed(EncodeFields(sub, slots, 0)), status)
    decreases sub, 2
  {
    hide EncodeVarint, EncodeFields, SlotsOk, DescOk;
    ghost var before, count, body := stream.state, stream.bytesWritten, EncodeFields(sub, slots, 0);
    var sizestream := new OStream.Sizing();
    status := EncodeMessage(sizestream, sub, slots);
    var size := sizestream.bytesWritten;
    assert status == Ok && size == |body|;
    status := EncodeVarintTo(stream, size);
    if status != Ok {
      TookNothing(stream, before, count, EncodeVarint(size), body, status);
      return;
    }
    ghost var middle, n := stream.state, stream.bytesWritten;
    if stream.sizing {
      stream.Count(size);
      return Ok;
    }
    if stream.bytesWritten + size > stream.maxSize {
      return StreamFull;
    }
    var substream := new OStream.Writing(stream.state, size);
    status := EncodeMessage(substream, sub, slots);
    stream.bytesWritten := stream.bytesWritten + substream.bytesWritten;
    stream.state := substream.state;
    if substream.bytesWritten != size {
      // "submsg size changed": both passes count the same bytes, so never.
      assert false;
    }
    TookBoth(stream, before, count, EncodeVarint(size), body, middle, n, status);
  }

  /** pb_encode: every field in the order of the table. */
  method EncodeMessage(stream: OStream, d: Desc, slots: seq<Slot>) returns (status: Status)
    requires stream.Valid() && DescOk(d) && SlotsOk(d, slots)
    modifies stream
    ensures stream.Took(old(stream.state), old(stream.bytesWritten), EncodeFields(d, slots, 0), status)
    decreases d, 1
  {
    hide EncodeSlot, OStream.Took, Common.FieldIter.Valid;
    ghost var before, count, whole := stream.state, stream.bytesWritten, EncodeFields(d, slots, 0);
    RowsAreTable(d);
    var iter := new Common.FieldIter(RowsOf(d), 0);
    var nonEmpty := iter.Begin();
    TookEmpty(stream);
    if !nonEmpty {
      return Ok;
    }
    ghost var done: Bytes := [];
    IterBounds(iter);
    while true
      invariant fresh(iter) && iter.Valid() && iter.start == RowsOf(d) && iter.pos < |d.fields|
      invariant stream.Took(before, count, done, Ok)
      invariant whole == done + EncodeFields(d, slots, iter.pos)
      decreases |d.fields| - iter.pos
    {
      ghost var i, middle, n := iter.pos, stream.state, stream.bytesWritten;
      ghost var e, later := EncodeSlot(d.fields[i], slots[i]), EncodeFields(d, slots, i + 1);
      TookIsValid(stream, before, count, done);
      TookSize(stream, before, count, done);
      status := EncodeField(stream, d.fields[iter.pos], slots[iter.pos]);
      Joined(stream, before, count, done, e, later, middle, n, status);
      if status != Ok {
        return;
      }
      done := done + e;
      IterBounds(iter);
      var more := iter.Next();
      if !more {
        assert done == whole by {
          assert i + 1 == |d.fields| && later == [];
          assert done + [] == done;
        }
        return Ok;
      }
    }
  }

  lemma IterBounds(iter: Common.FieldIter)
    requires iter.Valid()
    ensures iter.pos < |iter.start| - 1 || (iter.pos == 0 && |iter.start| == 1)
  {
  }

  lemma TookEmpty(stream: OStream)
    requires stream.Valid()
    ensures stream.Took(stream.state, stream.bytesWritten, [], Ok)
  {
  }

  lemma TookIsValid(stream: OStream, before: Bytes, count: nat, done: Bytes)
    requires stream.Took(before, count, done, Ok)
    ensures stream.Valid()
  {
  }

  /** One more piece after what has been sent already, with more to come. */
  lemma Joined(stream: OStream, before: Bytes, count: nat, done: Bytes, e: Bytes, later: Bytes, middle: Bytes, n: nat, status: Status)
    requires stream.sizing || count + |done| <= stream.maxSize
    requires n == count + |done| && middle == if stream.sizing then before else before + done
    requires stream.Took(middle, n, e, status)
    ensures status == Ok ==> stream.Took(before, count, done + e, Ok) && done + (e + later) == done + e + later
    ensures status != Ok ==> stream.Took(before, count, done + (e + later), status)
  {
    assert before + done + e == before + (done + e);
  }

  // ---------------------------------------------------------------- fields

  /** encode_basic_field. */
  method EncodeField(stream: OStream, f: Field, s: Slot) returns (status: Status)
    requires stream.Valid() && FieldOk(f) && SlotOk(f, s)
    modifies stream
    ensures stream.Took(old(stream.state), old(stream.bytesWritten), EncodeSlot(f, s), status)
    decreases f, 3
  {
    hide OStream.Took, EncodeTagged, EncodeArray;
    TookEmpty(stream);
    match f.presence
    case Required => status := EncodeTaggedTo(stream, f, s.v);
    case Implicit =>
      if IsDefaultValue(f.ltype, s.v) {
        status := Ok;
      } else {
        status := EncodeTaggedTo(stream, f, s.v);
      }
    case Optional =>
      if s.o.Some? {
        status := EncodeTaggedTo(stream, f, s.o.value);
      } else {
        status := Ok;
      }
    case OneOf(_) =>
      if s.o.Some? {
        status := EncodeTaggedTo(stream, f, s.o.value);
      } else {
        status := Ok;
      }
    case Repeated(_) => status := EncodeArrayTo(stream, f, s.vs);
    case FixedCount(_) => status := EncodeArrayTo(stream, f, s.vs);
  }

  method EncodeTaggedTo(stream: OStream, f: Field, v: Datum) returns (status: Status)
    requires stream.Valid() && FieldOk(f) && ValueOk(f.ltype, v)
    modifies stream
    ensures stream.Took(old(stream.state), old(stream.bytesWritten), EncodeTagged(f, v), status)
    decreases f, 0
  {
    hide TagBytes, EncodeValue;
    ghost var before, count := stream.state, stream.bytesWritten;
    ghost var tag, value := TagBytes(f.tag, WireType(f.ltype)), EncodeValue(f.ltype, v);
    status := EncodeTagTo(stream, WireType(f.ltype), f.tag);
    if status != Ok {
      TookNothing(stream, before, count, tag, value, status);
      return;
    }
    ghost var middle, n := stream.state, stream.bytesWritten;
    status := EncodeDatum(stream, f.ltype, v);
    TookBoth(stream, before, count, tag, value, middle, n, status);
  }

  /** encode_array. */
  method EncodeArrayTo(stream: OStream, f: Field, vs: seq<Datum>) returns (status: Status)
    requires stream.Valid() && FieldOk(f) && AllOk(f.ltype, vs)
    modifies stream
    ensures stream.Took(old(stream.state), old(stream.bytesWritten), EncodeArray(f, vs), status)
    decreases f, 2
  {
    hide TagBytes, EncodeVarint, EncodeItems, EncodeUnpacked;
    if |vs| == 0 {
      TookEmpty(stream);
      return Ok;
    }
    if !Packable(f.ltype) {
      status := EncodeRecords(stream, f, vs);
      return;
    }
    ghost var before, count := stream.state, stream.bytesWritten;
    ghost var tag, items := TagBytes(f.tag, PB_WT_STRING), EncodeItems(f.ltype, vs);
    status := EncodeTagTo(stream, PB_WT_STRING, f.tag);
    if status != Ok {
      TookNothing(stream, before, count, tag, LengthPrefixed(items), status);
      return;
    }
    ghost var middle, n := stream.state, stream.bytesWritten;
    status := EncodePacked(stream, f.ltype, vs);
    TookBoth(stream, before, count, tag, LengthPrefixed(items), middle, n, status);
  }

  /** The size of a packed array, then its items. */
  method EncodePacked(stream: OStream, t: LType, vs: seq<Datum>) returns (status: Status)
    requires stream.Valid() && LTypeOk(t) && Packable(t) && AllOk(t, vs)
    modifies stream
    ensures stream.Took(old(stream.state), old(stream.bytesWritten), LengthPrefixed(EncodeItems(t, vs)), status)
    decreases t, 3
  {
    hide EncodeVarint, EncodeItems;
    ghost var before, count, items := stream.state, stream.bytesWritten, EncodeItems(t, vs);
    var size: nat;
    if t.Fixed32? {
      FixedItems(t, vs, 4);
      size := 4 * |vs|;
    } else if t.Fixed64? {
      FixedItems(t, vs, 8);
      size := 8 * |vs|;
    } else {
      var sizestream := new OStream.Sizing();
      status := EncodeEach(sizestream, t, vs);
      size := sizestream.bytesWritten;
    }
    assert size == |items|;
    status := EncodeVarintTo(stream, size);
    if status != Ok {
      TookNothing(stream, before, count, EncodeVarint(size), items, status);
      return;
    }
    if stream.sizing {
      stream.Count(size);
      return Ok;
    }
    ghost var middle, n := stream.state, stream.bytesWritten;
    status := EncodeEach(stream, t, vs);
    TookBoth(stream, before, count, EncodeVarint(size), items, middle, n, status);
  }

  lemma {:induction false} FixedItems(t: LType, vs: seq<Datum>, width: nat)
    requires LTypeOk(t) && AllOk(t, vs) && ((t.Fixed32? && width == 4) || (t.Fixed64? && width == 8))
    ensures |EncodeItems(t, vs)| == width * |vs|
    decreases |vs|
  {
    if vs != [] {
      FixedItems(t, vs[1..], width);
    }
  }

  method EncodeEach(stream: OStream, t: LType, vs: seq<Datum>) returns (status: Status)
    requires stream.Valid() && LTypeOk(t) && AllOk(t, vs)
    modifies stream
    ensures stream.Took(old(stream.state), old(stream.bytesWritten), EncodeItems(t, vs), status)
    decreases t, 2
  {
    hide EncodeValue, OStream.Took;
    ghost var before, count, done: Bytes := stream.state, stream.bytesWritten, [];
    TookEmpty(stream);
    assert vs[0..] == vs;
    for i := 0 to |vs|
      invariant AllOk(t, vs[i..]) && stream.Took(before, count, done, Ok)
      invariant EncodeItems(t, vs) == done + EncodeItems(t, vs[i..])
    {
      ghost var middle, n := stream.state, stream.bytesWritten;
      assert vs[i..][0] == vs[i] && vs[i..][1..] == vs[i + 1..];
      ghost var e, later := EncodeValue(t, vs[i]), EncodeItems(t, vs[i + 1..]);
      TookIsValid(stream, before, count, done);
      TookSize(stream, before, count, done);
      status := EncodeDatum(stream, t, vs[i]);
      Joined(stream, before, count, done, e, later, middle, n, status);
      if status != Ok {
        return;
      }
      done := done + e;
    }
    assert done + [] == done;
    status := Ok;
  }

  method EncodeRecords(stream: OStream, f: Field, vs: seq<Datum>) returns (status: Status)
    requires stream.Valid() && FieldOk(f) && AllOk(f.ltype, vs)
    modifies stream
    ensures stream.Took(old(stream.state), old(stream.bytesWritten), EncodeUnpacked(f, vs), status)
    decreases f, 1
  {
    hide EncodeTagged, OStream.Took;
    ghost var before, count, done: Bytes := stream.state, stream.bytesWritten, [];
    TookEmpty(stream);
    assert vs[0..] == vs;
    for i := 0 to |vs|
      invariant AllOk(f.ltype, vs[i..]) && stream.Took(before, count, done, Ok)
      invariant EncodeUnpacked(f, vs) == done + EncodeUnpacked(f, vs[i..])
    {
      ghost var middle, n := stream.state, stream.bytesWritten;
      assert vs[i..][0] == vs[i] && vs[i..][1..] == vs[i + 1..];
      ghost var e, later := EncodeTagged(f, vs[i]), EncodeUnpacked(f, vs[i + 1..]);
      TookIsValid(stream, before, count, done);
      TookSize(stream, before, count, done);
      status := EncodeTaggedTo(stream, f, vs[i]);
      Joined(stream, before, count, done, e, later, middle, n, status);
      if status != Ok {
        return;
      }
      done := done + e;
    }
    assert done + [] == done;
    status := Ok;
  }

  lemma TookSize(stream: OStream, before: Bytes, count: nat, done: Bytes)
    requires stream.Took(before, count, done, Ok)
    ensures stream.sizing || count + |done| <= stream.maxSize
    ensures stream.bytesWritten == count + |done| && stream.state == if stream.sizing then before else before + done
  {
  }

  // ---------------------------------------------------------------- whole messages

  /** pb_get_encoded_size. */
  method GetEncodedSize(d: Desc, slots: seq<Slot>) returns (size: nat)
    requires DescOk(d) && SlotsOk(d, slots)
    ensures size == |EncodeFields(d, slots, 0)|
  {
    var stream := new OStream.Sizing();
    var status := EncodeMessage(stream, d, slots);
    size := stream.bytesWritten;
  }

  /** Encoding into a buffer succeeds exactly when the buffer is at least as large as the
      encoded size, and then the buffer holds the encoding. */
  method EncodeToBuffer(d: Desc, slots: seq<Slot>, bufsize: nat) returns (r: Option<Bytes>)
    requires DescOk(d) && SlotsOk(d, slots)
    ensures r.Some? <==> |EncodeFields(d, slots, 0)| <= bufsize
    ensures r.Some? ==> r.value == EncodeFields(d, slots, 0)
  {
    var stream := new OStream.Writing([], bufsize);
    var status := EncodeMessage(stream, d, slots);
    assert [] + EncodeFields(d, slots, 0) == EncodeFields(d, slots, 0);
    r := if status == Ok then Some(stream.state) else None;
  }
}
