/** pb_decode.c: the decoder.  Streams, substreams, the bitmap of required fields and the
    table-driven loop, each against its part of PbWire. */
module PbDecode {
  import opened DbFormat
  import opened Coding
  import Common = PbCommon
  import opened PbMessage
  import opened PbWire
  import opened Bits

  class IStream {
    // The buffer from the current position on; only `bytesLeft` of it belong to the stream.
    var state: Bytes
    var bytesLeft: nat

    ghost predicate Valid()
      reads this
    {
      bytesLeft <= |state|
    }

    ghost function Rest(): Bytes
      requires Valid()
      reads this
    {
      state[..bytesLeft]
    }

    /** The stream has only moved forward since it stood at `before` with `left` bytes. */
    ghost predicate Moved(before: Bytes, left: nat)
      reads this
    {
      Later(before, left, state, bytesLeft)
    }

    /** A reading method did what `spec` says: fail, or give a value and leave the rest. */
    ghost predicate Gave<T>(r: Option<T>, spec: Option<(T, Bytes)>)
      reads this
    {
      && Valid()
      && match spec
         case None => r.None?
         case Some((v, rest)) => r == Some(v) && Rest() == rest
    }

    /** pb_istream_from_buffer; a substream starts in the middle of its parent's buffer. */
    constructor (state: Bytes, bytesLeft: nat)
      requires bytesLeft <= |state|
      ensures this.state == state && this.bytesLeft == bytesLeft
    {
      this.state, this.bytesLeft := state, bytesLeft;
    }

    /** pb_readbyte. */
    method ReadByte() returns (r: Option<Byte>)
      requires Valid()
      modifies this
      ensures Valid() && Moved(old(state), old(bytesLeft))
      ensures old(Rest()) == [] ==> r.None?
      ensures old(Rest()) != [] ==> r == Some(old(Rest())[0]) && Rest() == old(Rest())[1..]
    {
      if bytesLeft == 0 {
        return None;
      }
      r := Some(state[0]);
      state, bytesLeft := state[1..], bytesLeft - 1;
    }

    /** pb_read. */
    method Read(count: nat) returns (r: Option<Bytes>)
      requires Valid()
      modifies this
      ensures Valid() && Moved(old(state), old(bytesLeft))
      ensures |old(Rest())| < count ==> r.None?
      ensures |old(Rest())| >= count ==> r == Some(old(Rest())[..count]) && Rest() == old(Rest())[count..]
    {
      if count == 0 {
        assert Rest()[..0] == [];
        return Some([]);
      }
      if bytesLeft < count {
        return None;
      }
      assert state[..bytesLeft][..count] == state[..count];
      assert state[..bytesLeft][count..] == state[count..][..bytesLeft - count];
      r := Some(state[..count]);
      state, bytesLeft := state[count..], bytesLeft - count;
    }
  }

  /** From `before` with `left` bytes to `state` with `n`: the rest of the same buffer. */
  ghost predicate Later(before: Bytes, left: nat, state: Bytes, n: nat) {
    n <= left <= |before| && state == before[left - n..]
  }

  lemma MovedOn(s: IStream, before: Bytes, left: nat, middle: Bytes, n: nat)
    requires Later(before, left, middle, n) && s.Moved(middle, n)
    ensures s.Moved(before, left)
  {
    assert middle[n - s.bytesLeft..] == before[left - s.bytesLeft..];
  }

  lemma NotMoved(s: IStream)
    requires s.Valid()
    ensures s.Moved(s.state, s.bytesLeft)
  {
  }

  // ---------------------------------------------------------------- varints and tags

  /** One byte more of a 32-bit varint. */
  lemma OneMore(s: Bytes, result: nat, bitpos: nat)
    requires result < Modulus(4)
    ensures s == [] ==> MoreVarint32(s, result, bitpos).None?
    ensures s != [] && bitpos >= 32 && s[0] % 128 != 0 && (result < Modulus(4) / 2 || s[0] != SignExtension(bitpos)) ==>
              MoreVarint32(s, result, bitpos).None?
    ensures s != [] && bitpos >= 32 && !(s[0] % 128 != 0 && (result < Modulus(4) / 2 || s[0] != SignExtension(bitpos))) ==>
              MoreVarint32(s, result, bitpos) ==
              if s[0] >= 128 then MoreVarint32(s[1..], result, bitpos + 7) else Some((result, s[1..]))
    ensures s != [] && bitpos < 32 ==>
              MoreVarint32(s, result, bitpos) ==
              if s[0] >= 128 then MoreVarint32(s[1..], Placed(result, s[0], bitpos), bitpos + 7)
              else if bitpos == 28 && s[0] >= 16 then None
              else Some((Placed(result, s[0], bitpos), s[1..]))
  {
  }

  /** pb_decode_varint32. */
  method DecodeVarint32(stream: IStream) returns (r: Option<nat>)
    requires stream.Valid()
    modifies stream
    ensures stream.Moved(old(stream.state), old(stream.bytesLeft))
    ensures stream.Gave(r, Varint32(old(stream.Rest())))
  {
    hide MoreVarint32, At, SignExtension, Placed, Later;
    NotMoved(stream);
    ghost var before, left, whole := stream.state, stream.bytesLeft, stream.Rest();
    var next := stream.ReadByte();
    if next.None? {
      return None;
    }
    var byte: nat := next.value;
    if byte < 128 {
      return Some(byte);
    }
    var bitpos: nat, result: nat := 7, byte - 128;
    while true
      invariant stream.Valid() && stream.Moved(before, left) && result < Modulus(4)
      invariant Varint32(whole) == MoreVarint32(stream.Rest(), result, bitpos)
      decreases stream.bytesLeft
    {
      ghost var middle, n, rest := stream.state, stream.bytesLeft, stream.Rest();
      next := stream.ReadByte();
      MovedOn(stream, before, left, middle, n);
      if next.None? {
        return None;
      }
      byte := next.value;
      OneMore(rest, result, bitpos);
      if bitpos >= 32 {
        if byte % 128 != 0 && (result < Modulus(4) / 2 || byte != SignExtension(bitpos)) {
          return None;
        }
      } else {
        result := Placed(result, byte, bitpos);
      }
      bitpos := bitpos + 7;
      if byte < 128 {
        break;
      }
    }
    // The last byte, below 128, was at bit 28, so only its bottom 4 bits fit.
    if bitpos == 35 && byte >= 16 {
      return None;
    }
    return Some(result);
  }

  function Wide(n: nat): nat {
    n % Modulus(8)
  }

  /** result | (byte & 0x7f) << bitpos, in 64 bits: the bits below are all there are. */
  function PlacedWide(result: nat, byte: nat, bitpos: nat): nat {
    (result + At(byte % 128, bitpos)) % Modulus(8)
  }

  ghost function Plus(sum: nat, byte: nat, k: nat): nat {
    sum + byte % 128 * Pow128(k)
  }

  /** pb_decode_varint: the bytes are added up from the lowest bits, modulo 2^64. */
  method DecodeVarint64(stream: IStream) returns (r: Option<nat>)
    requires stream.Valid()
    modifies stream
    ensures stream.Moved(old(stream.state), old(stream.bytesLeft))
    ensures stream.Gave(r, Varint64(old(stream.Rest())))
  {
    ghost var before, left, whole := stream.state, stream.bytesLeft, stream.Rest();
    AddNone(whole);
    hide Added, Pow128, DecodeVarint, Varint64, Later, Wide, Plus, PlacedWide;
    NotMoved(stream);
    var bitpos: nat, result: nat := 0, 0;
    ghost var sum: nat, k: nat := 0, 0;
    while true
      invariant stream.Valid() && stream.Moved(before, left)
      invariant k <= 10 && bitpos == 7 * k && result == Wide(sum)
      invariant Added(whole, 10, sum, Pow128(k), DecodeVarint(stream.Rest(), 10 - k))
      decreases stream.bytesLeft
    {
      AddEnd(whole, sum, k, stream.Rest());
      if bitpos >= 64 {
        return None;
      }
      ghost var middle, n, rest := stream.state, stream.bytesLeft, stream.Rest();
      var next := stream.ReadByte();
      MovedOn(stream, before, left, middle, n);
      if next.None? {
        return None;
      }
      var byte: nat := next.value;
      result := PlacedWide(result, byte, bitpos);
      AddByte(whole, sum, k, rest);
      sum := Plus(sum, byte, k);
      bitpos, k := bitpos + 7, k + 1;
      if byte < 128 {
        return Some(result);
      }
    }
  }

  /** What `whole` decodes to is `sum` plus `p` times what is still to come. */
  ghost predicate Added(whole: Bytes, n: nat, sum: nat, p: nat, later: Option<(nat, Bytes)>) {
    match later
    case None => DecodeVarint(whole, n).None?
    case Some((v, rest)) => DecodeVarint(whole, n) == Some((sum + v * p, rest))
  }

  lemma AddNone(whole: Bytes)
    ensures Wide(0) == 0 && Added(whole, 10, 0, Pow128(0), DecodeVarint(whole, 10))
  {
  }

  lemma AddEnd(whole: Bytes, sum: nat, k: nat, s: Bytes)
    requires k <= 10 && Added(whole, 10, sum, Pow128(k), DecodeVarint(s, 10 - k))
    ensures s == [] || k == 10 ==> Varint64(whole).None?
  {
  }

  lemma {:induction false} ShiftIsPow(k: nat)
    ensures TwoTo(7 * k) == Pow128(k)
  {
    if k > 0 {
      ShiftIsPow(k - 1);
      SevenMore(7 * k - 7);
    }
  }

  lemma AddByte(whole: Bytes, sum: nat, k: nat, s: Bytes)
    requires k < 10 && s != [] && Added(whole, 10, sum, Pow128(k), DecodeVarint(s, 10 - k))
    ensures PlacedWide(Wide(sum), s[0], 7 * k) == Wide(Plus(sum, s[0], k))
    ensures s[0] < 128 ==> Varint64(whole) == Some((Wide(Plus(sum, s[0], k)), s[1..]))
    ensures s[0] >= 128 ==> Added(whole, 10, Plus(sum, s[0], k), Pow128(k + 1), DecodeVarint(s[1..], 9 - k))
  {
    hide Wide, PlacedWide, Plus, Varint64, Pow128;
    PlaceWide(sum, s[0], k);
    if s[0] < 128 {
      LastByte(whole, sum, k, s);
    } else {
      MiddleByte(whole, sum, k, s);
    }
  }

  lemma PlaceWide(sum: nat, byte: nat, k: nat)
    ensures PlacedWide(Wide(sum), byte, 7 * k) == Wide(Plus(sum, byte, k))
  {
    ShiftIsPow(k);
    ModAdd(sum, byte % 128 * Pow128(k), Modulus(8));
  }

  lemma LastByte(whole: Bytes, sum: nat, k: nat, s: Bytes)
    requires k < 10 && s != [] && s[0] < 128 && Added(whole, 10, sum, Pow128(k), DecodeVarint(s, 10 - k))
    ensures Varint64(whole) == Some((Wide(Plus(sum, s[0], k)), s[1..]))
  {
    hide Pow128;
  }

  lemma MiddleByte(whole: Bytes, sum: nat, k: nat, s: Bytes)
    requires k < 10 && s != [] && s[0] >= 128 && Added(whole, 10, sum, Pow128(k), DecodeVarint(s, 10 - k))
    ensures Added(whole, 10, Plus(sum, s[0], k), Pow128(k + 1), DecodeVarint(s[1..], 9 - k))
  {
    var b: nat, p := s[0] - 128, Pow128(k);
    assert Pow128(k + 1) == 128 * p;
    hide Pow128;
    match DecodeVarint(s[1..], 9 - k)
    case None =>
    case Some((v, rest)) => Distribute(b, v, p);
  }

  lemma Distribute(b: nat, v: nat, p: nat)
    ensures (b + 128 * v) * p == b * p + v * (128 * p)
  {
  }

  /** pb_decode_tag: a key of zero counts as the end of the message. */
  method DecodeTag(stream: IStream) returns (wire: nat, tag: nat, ok: bool, eof: bool)
    requires stream.Valid()
    modifies stream
    ensures stream.Valid() && stream.Moved(old(stream.state), old(stream.bytesLeft))
    ensures match Varint32(old(stream.Rest()))
            case None => !ok && (eof <==> old(stream.bytesLeft) == 0)
            case Some((key, rest)) =>
              stream.Rest() == rest && if key == 0 then !ok && eof else ok && wire == key % 8 && tag == key / 8
  {
    wire, tag := 0, 0;
    eof := stream.bytesLeft == 0;
    var temp := DecodeVarint32(stream);
    if temp.None? {
      return wire, tag, false, eof;
    }
    if temp.value == 0 {
      return wire, tag, false, true;
    }
    return temp.value % 8, temp.value / 8, true, false;
  }

  // ---------------------------------------------------------------- skipping

  /** pb_skip_field. */
  method SkipField(stream: IStream, wire: nat) returns (ok: bool)
    requires stream.Valid()
    modifies stream
    ensures stream.Valid() && stream.Moved(old(stream.state), old(stream.bytesLeft))
    ensures match Skip(wire, old(stream.Rest())) case None => !ok case Some(rest) => ok && stream.Rest() == rest
  {
    ghost var before, left, whole := stream.state, stream.bytesLeft, stream.Rest();
    if wire == PB_WT_VARINT {
      while true
        invariant stream.Valid() && stream.Moved(before, left)
        invariant SkipVarint(whole) == SkipVarint(stream.Rest())
        decreases stream.bytesLeft
      {
        ghost var middle, n := stream.state, stream.bytesLeft;
        var byte := stream.ReadByte();
        MovedOn(stream, before, left, middle, n);
        if byte.None? || byte.value < 128 {
          return byte.Some?;
        }
      }
    } else if wire == PB_WT_64BIT {
      var r := stream.Read(8);
      return r.Some?;
    } else if wire == PB_WT_STRING {
      var length := DecodeVarint32(stream);
      if length.None? {
        return false;
      }
      ghost var middle, n := stream.state, stream.bytesLeft;
      var r := stream.Read(length.value);
      MovedOn(stream, before, left, middle, n);
      return r.Some?;
    } else if wire == PB_WT_32BIT {
      var r := stream.Read(4);
      return r.Some?;
    } else {
      return false;
    }
  }

  // ---------------------------------------------------------------- substreams

  /** pb_make_string_substream: the parent loses the bytes of the substream, but does not
      move past them until the substream is closed. */
  method MakeSubstream(stream: IStream) returns (sub: IStream?)
    requires stream.Valid()
    modifies stream
    ensures stream.Valid() && (sub == null <==> Substream(old(stream.Rest())).None?)
    ensures sub == null ==> stream.Moved(old(stream.state), old(stream.bytesLeft))
    ensures sub != null ==> fresh(sub) && sub.Valid() && sub.Rest() == Substream(old(stream.Rest())).value.0
    ensures sub != null ==> Lent(stream, sub.state, sub.bytesLeft, old(stream.state), old(stream.bytesLeft), Substream(old(stream.Rest())).value.1)
  {
    ghost var before, left, whole := stream.state, stream.bytesLeft, stream.Rest();
    var size := DecodeVarint32(stream);
    if size.None? {
      return null;
    }
    if stream.bytesLeft < size.value {
      return null;
    }
    ghost var rest := stream.Rest();
    sub := new IStream(stream.state, size.value);
    stream.bytesLeft := stream.bytesLeft - size.value;
    assert rest[..size.value] == sub.Rest();
    assert stream.state[size.value..][..stream.bytesLeft] == rest[size.value..];
  }

  /** While a substream that began at `start` with `size` bytes is open: what its parent
      stands at, and what it will have left. */
  ghost predicate Lent(stream: IStream, start: Bytes, size: nat, before: Bytes, left: nat, rest: Bytes)
    reads stream
  {
    && stream.state == start && size + stream.bytesLeft <= left <= |before|
    && start == before[left - size - stream.bytesLeft..]
    && start[size..][..stream.bytesLeft] == rest
  }

  /** pb_close_string_substream: whatever the substream has left is skipped. */
  method CloseSubstream(stream: IStream, sub: IStream, ghost size: nat, ghost before: Bytes, ghost left: nat, ghost rest: Bytes)
    requires stream != sub && sub.Valid() && size <= |stream.state| && sub.Moved(stream.state, size)
    requires Lent(stream, stream.state, size, before, left, rest)
    modifies stream, sub
    ensures stream.Valid() && stream.Moved(before, left) && stream.Rest() == rest
  {
    ghost var start, n := sub.state, sub.bytesLeft;
    if sub.bytesLeft > 0 {
      var _ := sub.Read(sub.bytesLeft);
      MovedOn(sub, stream.state, size, start, n);
      assert sub.bytesLeft == 0;
    }
    assert sub.state == stream.state[size..];
    assert before[left - size - stream.bytesLeft..][size..] == before[left - stream.bytesLeft..];
    stream.state := sub.state;
  }

  // ---------------------------------------------------------------- scalars

  lemma FixedPrefix(s: Bytes)
    ensures |s| >= 4 ==> DecodeFixed32(s[..4]) == DecodeFixed32(s)
    ensures |s| >= 8 ==> DecodeFixed64(s[..8]) == DecodeFixed64(s)
  {
  }

  /** pb_dec_bytes, pb_dec_string and pb_dec_fixed_length_bytes. */
  method DecodeBytesFrom(stream: IStream, t: LType) returns (r: Option<Datum>)
    requires stream.Valid() && (t.BytesArray? || t.Str? || t.FixedBytes?) && LTypeOk(t)
    modifies stream
    ensures stream.Moved(old(stream.state), old(stream.bytesLeft))
    ensures stream.Gave(r, DecodeScalar(t, old(stream.Rest())))
  {
    hide Varint32, UpToNul, DefaultValue, Later;
    ghost var before, left := stream.state, stream.bytesLeft;
    var size := DecodeVarint32(stream);
    if size.None? {
      return None;
    }
    ghost var middle, n, rest := stream.state, stream.bytesLeft, stream.Rest();
    match t
    case BytesArray(capacity) =>
      if size.value > PB_SIZE_MAX || size.value > capacity {
        return None;
      }
      var data := stream.Read(size.value);
      MovedOn(stream, before, left, middle, n);
      r := if data.Some? then Some(Raw(data.value)) else None;
    case Str(capacity) =>
      if size.value + 1 > capacity {
        return None;
      }
      var data := stream.Read(size.value);
      MovedOn(stream, before, left, middle, n);
      // The reader of the string stops at its first NUL.
      r := if data.Some? then Some(Raw(UpToNul(data.value))) else None;
    case FixedBytes(length) =>
      if size.value > PB_SIZE_MAX {
        return None;
      }
      if size.value == 0 {
        assert rest[..0] == [] && rest[0..] == rest;
        return Some(DefaultValue(t));
      }
      if size.value != length {
        return None;
      }
      var data := stream.Read(size.value);
      MovedOn(stream, before, left, middle, n);
      r := if data.Some? then Some(Raw(data.value)) else None;
  }

  /** pb_dec_bool, pb_dec_varint and so on. */
  method DecodeScalarFrom(stream: IStream, t: LType) returns (r: Option<Datum>)
    requires stream.Valid() && !t.Submessage? && LTypeOk(t)
    modifies stream
    ensures stream.Moved(old(stream.state), old(stream.bytesLeft))
    ensures stream.Gave(r, DecodeScalar(t, old(stream.Rest())))
  {
    hide Varint32, Varint64, CastSigned, Signed, UnZigZag, DecodeFixed32, DecodeFixed64, UpToNul;
    match t
    case Bool =>
      var n := DecodeVarint32(stream);
      r := if n.Some? then Some(Int(if n.value != 0 then 1 else 0)) else None;
    case Varint(size) =>
      var n := DecodeVarint64(stream);
      if n.None? {
        return None;
      }
      var v := CastSigned(n.value, size);
      r := if v.Some? then Some(Int(v.value)) else None;
    case Uvarint(size) =>
      var n := DecodeVarint64(stream);
      r := if n.Some? && n.value < Modulus(size) then Some(Int(n.value)) else None;
    case Svarint(size) =>
      var n := DecodeVarint64(stream);
      r := if n.Some? && Signed(UnZigZag(n.value), size) then Some(Int(UnZigZag(n.value))) else None;
    case Fixed32 =>
      var b := stream.Read(4);
      FixedPrefix(old(stream.Rest()));
      r := if b.Some? then Some(Int(DecodeFixed32(b.value))) else None;
    case Fixed64 =>
      var b := stream.Read(8);
      FixedPrefix(old(stream.Rest()));
      r := if b.Some? then Some(Int(DecodeFixed64(b.value))) else None;
    case BytesArray(_) => r := DecodeBytesFrom(stream, t);
    case Str(_) => r := DecodeBytesFrom(stream, t);
    case FixedBytes(_) => r := DecodeBytesFrom(stream, t);
  }

  // ---------------------------------------------------------------- the bitmap

  /** The word whose bit k says whether base + k is in the set, for k below n. */
  ghost function WordOf(seen: set<int>, base: nat, n: nat): (w: nat)
    ensures w < TwoTo(n)
  {
    if n == 0 then 0
    else WordOf(seen, base, n - 1) + if base + n - 1 in seen then TwoTo(n - 1) else 0
  }

  lemma {:induction false} BitOfWord(seen: set<int>, base: nat, n: nat, k: nat)
    requires k < n
    ensures Bit(WordOf(seen, base, n), k) <==> base + k in seen
    decreases n
  {
    hide Bit, TwoTo;
    var low := WordOf(seen, base, n - 1);
    if k == n - 1 {
      TopBit(low, k);
    } else {
      BitOfWord(seen, base, n - 1, k);
      LowerBit(low, k, n - 1);
    }
  }

  lemma {:induction false} SetBitInWord(seen: set<int>, base: nat, n: nat, x: nat)
    ensures base <= x < base + n ==> WordOf(seen + {x}, base, n) == SetBit(WordOf(seen, base, n), x - base)
    ensures !(base <= x < base + n) ==> WordOf(seen + {x}, base, n) == WordOf(seen, base, n)
    decreases n
  {
    hide Bit;
    if n > 0 {
      SetBitInWord(seen, base, n - 1, x);
      if base <= x < base + n {
        BitOfWord(seen, base, n, x - base);
        if x - base < n - 1 {
          BitOfWord(seen, base, n - 1, x - base);
        }
      }
    }
  }

  /** Of the n numbers from base on, exactly the first m are in the set. */
  ghost predicate FirstOf(seen: set<int>, base: nat, n: nat, m: nat) {
    forall x :: base <= x < base + n ==> (x in seen <==> x < base + m)
  }

  /** A word is 2^m - 1 exactly if its bits below m are set and no others. */
  lemma {:induction false} FullWord(seen: set<int>, base: nat, n: nat, m: nat)
    requires m <= n
    ensures WordOf(seen, base, n) == TwoTo(m) - 1 <==> FirstOf(seen, base, n, m)
    decreases n
  {
    if n > 0 {
      var top := n - 1;
      FullWord(seen, base, top, if m == n then top else m);
      TwoToGrows(m, top);
      assert FirstOf(seen, base, n, m) <==>
             (base + top in seen <==> top < m) && FirstOf(seen, base, top, if m == n then top else m);
    }
  }

  const ALL_BITS: nat := 0xffff_ffff

  /** allbits >> (32 - k). */
  lemma LowBits(k: nat)
    requires k <= 32
    ensures ALL_BITS / TwoTo(32 - k) == TwoTo(k) - 1
  {
    var p := TwoTo(32 - k);
    TwoToSum(k, 32 - k);
    TwoToValues();
    TwoToSum(28, 4);
    assert ALL_BITS == TwoTo(k) * p - 1 == (TwoTo(k) - 1) * p + (p - 1);
    DivisionIsUnique(ALL_BITS, TwoTo(k) - 1, p - 1, p);
  }

  /** fields_seen holds the set of the indices of the required fields seen. */
  ghost predicate Marks(word0: nat, word1: nat, seen: set<int>) {
    word0 == WordOf(seen, 0, 32) && word1 == WordOf(seen, 32, 32)
  }

  /** fields_seen[index >> 5] |= 1 << (index & 31). */
  method MarkSeen(fieldsSeen: array<nat>, index: nat, ghost seen: set<int>)
    requires fieldsSeen.Length == 2 && index < PB_MAX_REQUIRED_FIELDS && Marks(fieldsSeen[0], fieldsSeen[1], seen)
    modifies fieldsSeen
    ensures Marks(fieldsSeen[0], fieldsSeen[1], seen + {index})
  {
    hide WordOf, SetBit;
    SetBitInWord(seen, 0, 32, index);
    SetBitInWord(seen, 32, 32, index);
    fieldsSeen[index / 32] := SetBit(fieldsSeen[index / 32], index % 32);
  }

  /** The check that passes exactly if the first `count` indices have been seen: whole words
      first, then the remaining bits. */
  method AllSeen(fieldsSeen: array<nat>, count: nat, ghost seen: set<int>) returns (ok: bool)
    requires fieldsSeen.Length == 2 && count <= PB_MAX_REQUIRED_FIELDS && Marks(fieldsSeen[0], fieldsSeen[1], seen)
    requires forall k :: k in seen ==> 0 <= k < count
    ensures ok <==> forall k :: 0 <= k < count ==> k in seen
  {
    hide WordOf, TwoTo;
    ok := true;
    if count > 0 {
      LowBits(count % 32);
      FullWords(seen, count);
      var i := 0;
      while i < count / 32
        invariant 0 <= i <= count / 32
        invariant i >= 1 ==> fieldsSeen[0] == ALL_BITS
        invariant i >= 2 ==> fieldsSeen[1] == ALL_BITS
      {
        if fieldsSeen[i] != ALL_BITS {
          return false;
        }
        i := i + 1;
      }
      if count % 32 != 0 {
        if fieldsSeen[count / 32] != ALL_BITS / TwoTo(32 - count % 32) {
          return false;
        }
      }
    }
  }

  lemma FullWords(seen: set<int>, count: nat)
    requires count <= PB_MAX_REQUIRED_FIELDS && forall k :: k in seen ==> 0 <= k < count
    ensures (forall k :: 0 <= k < count ==> k in seen) <==>
            && WordOf(seen, 0, 32) == (if count >= 32 then ALL_BITS else TwoTo(count % 32) - 1)
            && (count > 32 ==> WordOf(seen, 32, 32) == if count == 64 then ALL_BITS else TwoTo(count % 32) - 1)
  {
    hide WordOf, TwoTo;
    var m0: nat, m1: nat := if count >= 32 then 32 else count, if count >= 32 then count - 32 else 0;
    FullWord(seen, 0, 32, m0);
    FullWord(seen, 32, 32, m1);
    AllBits();
    TwoWords(seen, count, m0, m1);
  }

  lemma AllBits()
    ensures TwoTo(32) - 1 == ALL_BITS
  {
    LowBits(32);
    assert TwoTo(0) == 1;
  }

  lemma TwoWords(seen: set<int>, count: nat, m0: nat, m1: nat)
    requires count <= 64 && forall k :: k in seen ==> 0 <= k < count
    requires m0 == (if count >= 32 then 32 else count) && m1 == if count >= 32 then count - 32 else 0
    ensures (forall k :: 0 <= k < count ==> k in seen) <==> FirstOf(seen, 0, 32, m0) && FirstOf(seen, 32, 32, m1)
    ensures count <= 32 ==> FirstOf(seen, 32, 32, m1)
  {
  }

  // ---------------------------------------------------------------- fields

  /** One value; a submessage is read from a substream of its own, into what is there. */
  method DecodeValueFrom(stream: IStream, t: LType, prev: Datum) returns (r: Option<Datum>)
    requires stream.Valid() && LTypeOk(t)
    modifies stream
    ensures stream.Moved(old(stream.state), old(stream.bytesLeft))
    ensures stream.Gave(r, DecodeValue(t, prev, old(stream.Rest())))
    decreases t, 0
  {
    hide DecodeScalar, DecodeMessage, Substream, Lent;
    if !t.Submessage? {
      r := DecodeScalarFrom(stream, t);
      return;
    }
    ghost var before, left, whole := stream.state, stream.bytesLeft, stream.Rest();
    var sub := MakeSubstream(stream);
    if sub == null {
      return None;
    }
    ghost var size, rest := sub.bytesLeft, Substream(whole).value.1;
    LentState(stream, sub, size, before, left, rest);
    var slots := DecodeNoinit(sub, t.sub, if prev.Msg? && |prev.slots| == |t.sub.fields| then prev.slots else Defaults(t.sub));
    CloseSubstream(stream, sub, size, before, left, rest);
    r := if slots.Some? then Some(Msg(slots.value)) else None;
  }

  lemma LentState(stream: IStream, sub: IStream, size: nat, before: Bytes, left: nat, rest: Bytes)
    requires Lent(stream, sub.state, size, before, left, rest)
    ensures stream.state == sub.state && size <= |stream.state|
  {
  }

  /** The loop over a packed array. */
  method DecodePackedFrom(sub: IStream, t: LType, had: seq<Datum>, max: nat) returns (r: Option<seq<Datum>>)
    requires sub.Valid() && !t.Submessage? && LTypeOk(t)
    modifies sub
    ensures sub.Valid() && sub.Moved(old(sub.state), old(sub.bytesLeft))
    ensures r == DecodePacked(t, old(sub.Rest()), had, max)
  {
    hide DecodeScalar;
    ghost var before, left, whole := sub.state, sub.bytesLeft, sub.Rest();
    var vs, status := had, true;
    while sub.bytesLeft > 0 && |vs| < max
      invariant sub.Valid() && sub.Moved(before, left) && status
      invariant DecodePacked(t, whole, had, max) == DecodePacked(t, sub.Rest(), vs, max)
      decreases sub.bytesLeft
    {
      ghost var middle, n := sub.state, sub.bytesLeft;
      var v := DecodeScalarFrom(sub, t);
      MovedOn(sub, before, left, middle, n);
      if v.None? {
        status := false;
        break;
      }
      vs := vs + [v.value];
    }
    if sub.bytesLeft != 0 {
      // "array overflow"
      return None;
    }
    r := if status then Some(vs) else None;
  }

  /** The part of decode_static_field about arrays: `vs` are the items there already. */
  method DecodeArrayFrom(stream: IStream, f: Field, wire: nat, vs: seq<Datum>, max: nat) returns (r: Option<seq<Datum>>)
    requires stream.Valid() && LTypeOk(f.ltype)
    modifies stream
    ensures stream.Moved(old(stream.state), old(stream.bytesLeft))
    ensures stream.Gave(r, DecodeArray(f, wire, old(stream.Rest()), vs, max))
    decreases f, 1
  {
    hide DecodeScalar, DecodeValue, DecodePacked, Substream, Lent;
    ghost var before, left, whole := stream.state, stream.bytesLeft, stream.Rest();
    if wire == PB_WT_STRING && Packable(f.ltype) {
      var sub := MakeSubstream(stream);
      if sub == null {
        return None;
      }
      ghost var size, rest := sub.bytesLeft, Substream(whole).value.1;
      LentState(stream, sub, size, before, left, rest);
      r := DecodePackedFrom(sub, f.ltype, vs, max);
      CloseSubstream(stream, sub, size, before, left, rest);
    } else {
      if |vs| >= max {
        return None;
      }
      var v := DecodeValueFrom(stream, f.ltype, DefaultValue(f.ltype));
      r := if v.Some? then Some(vs + [v.value]) else None;
    }
  }

  /** decode_static_field. */
  method DecodeStaticField(stream: IStream, d: Desc, i: nat, wire: nat, slots: seq<Slot>) returns (r: Option<seq<Slot>>)
    requires stream.Valid() && i < |d.fields| == |slots| && LTypeOk(d.fields[i].ltype)
    modifies stream
    ensures stream.Moved(old(stream.state), old(stream.bytesLeft))
    ensures stream.Gave(r, StaticField(d, i, wire, old(stream.Rest()), slots))
    decreases d.fields[i], 2
  {
    hide DecodeValue, DecodeArray, ClearUnion;
    var f := d.fields[i];
    match f.presence
    case Repeated(max) =>
      var vs := DecodeArrayFrom(stream, f, wire, ItemsOf(slots[i]), max);
      r := if vs.Some? then Some(slots[i := Many(vs.value)]) else None;
    case FixedCount(count) =>
      var vs := DecodeArrayFrom(stream, f, wire, ItemsOf(slots[i]), count);
      r := if vs.Some? then Some(slots[i := Many(vs.value)]) else None;
    case Required =>
      var v := DecodeValueFrom(stream, f.ltype, PrevOf(f, slots[i]));
      r := if v.Some? then Some(slots[i := Single(v.value)]) else None;
    case Implicit =>
      var v := DecodeValueFrom(stream, f.ltype, PrevOf(f, slots[i]));
      r := if v.Some? then Some(slots[i := Single(v.value)]) else None;
    case Optional =>
      var v := DecodeValueFrom(stream, f.ltype, PrevOf(f, slots[i]));
      r := if v.Some? then Some(slots[i := Maybe(Some(v.value))]) else None;
    case OneOf(_) =>
      // A member of the union that was there before is there no longer.
      var v := DecodeValueFrom(stream, f.ltype, PrevOf(f, slots[i]));
      r := if v.Some? then Some(ClearUnion(d, slots, i)[i := Maybe(Some(v.value))]) else None;
  }

  // ---------------------------------------------------------------- messages

  /** What the local variables of pb_decode_noinit hold; the bitmap stands for `st.seen`. */
  ghost predicate Holds(d: Desc, st: Loop, fieldsSeen: array<nat>)
    reads fieldsSeen
  {
    && |st.slots| == |d.fields| && fieldsSeen.Length == 2 && Marks(fieldsSeen[0], fieldsSeen[1], st.seen)
    && (st.fixedField.Some? ==> st.fixedField.value < |d.fields| && d.fields[st.fixedField.value].presence.FixedCount?)
    && (d.fields != [] ==> SeenBelow(st.seen, RequiredTotal(d)))
  }

  ghost predicate SeenBelow(seen: set<int>, n: nat) {
    forall k :: k in seen ==> 0 <= k < n
  }

  function RequiredTotal(d: Desc): nat {
    var n := RequiredBefore(d, |d.fields|);
    if n > PB_MAX_REQUIRED_FIELDS then PB_MAX_REQUIRED_FIELDS else n
  }

  lemma {:induction false} RequiredGrows(d: Desc, i: nat, n: nat)
    requires i < n <= |d.fields| && d.fields[i].presence.Required?
    ensures RequiredBefore(d, i) < RequiredBefore(d, n)
    decreases n
  {
    if i < n - 1 {
      RequiredGrows(d, i, n - 1);
    }
  }

  lemma {:induction false} RowsRequired(d: Desc, i: nat)
    requires i <= |d.fields|
    ensures Common.RequiredBefore(RowsOf(d), i) == RequiredBefore(d, i)
  {
    if i > 0 {
      RowsRequired(d, i - 1);
      assert RowsOf(d)[i - 1] == RowOf(d.fields[i - 1]);
    }
  }

  /** pb_field_iter_find gives what a search of the descriptor gives. */
  lemma FindAgrees(d: Desc, tag: nat, found: bool, pos: nat)
    requires DescOk(d) && pos < |RowsOf(d)|
    requires found ==> RowsOf(d)[pos].tag == tag
    requires tag != 0 ==> (found <==> exists i :: 0 <= i < |RowsOf(d)| - 1 && RowsOf(d)[i].tag == tag && !RowsOf(d)[i].extension)
    requires tag == 0 ==> (found <==> |RowsOf(d)| == 1)
    requires pos < |d.fields| || (pos == 0 && d.fields == [])
    ensures found && d.fields != [] ==> FindField(d, tag, 0) == Some(pos)
    ensures found && d.fields == [] ==> FindField(d, tag, 0) == None && tag == 0
    ensures !found ==> FindField(d, tag, 0) == None && (d.fields == [] ==> tag != 0)
  {
    if found && d.fields != [] {
      FindUnique(d, pos, 0);
    }
    var r := FindField(d, tag, 0);
    if r.Some? {
      assert RowsOf(d)[r.value].tag == tag;
      assert d.fields[r.value].tag != 0;
    }
  }

  /** The last lap of pb_decode_noinit: on to the end of the table, counting. */
  method CountRequired(iter: Common.FieldIter, d: Desc) returns (count: nat)
    requires DescOk(d) && iter.Valid() && iter.start == RowsOf(d)
    modifies iter
    ensures count == RequiredTotal(d)
  {
    var last: Common.HType;
    while true
      invariant iter.Valid()
      decreases |RowsOf(d)| - iter.pos
    {
      count := iter.requiredFieldIndex;
      last := iter.start[iter.pos].htype;
      RowsRequired(d, iter.pos);
      ghost var i := iter.pos;
      var more := iter.Next();
      if !more {
        assert i == |d.fields| - 1 || (i == 0 && d.fields == []);
        assert iter.pos == 0;
        break;
      }
    }
    if last == Common.Required && iter.start[iter.pos].tag != 0 {
      count := count + 1;
    }
    if count > PB_MAX_REQUIRED_FIELDS {
      count := PB_MAX_REQUIRED_FIELDS;
    }
  }

  /** What the loop comes to, from the start and from any round. */
  ghost predicate Running(d: Desc, whole: Bytes, slots0: seq<Slot>, rest: Bytes, st: Loop)
    requires |slots0| == |d.fields| == |st.slots|
  {
    DecodeLoop(d, whole, Loop(slots0, {}, None, 0)) == DecodeLoop(d, rest, st)
  }

  ghost predicate Comes(d: Desc, whole: Bytes, slots0: seq<Slot>, r: Option<Loop>)
    requires |slots0| == |d.fields|
  {
    DecodeLoop(d, whole, Loop(slots0, {}, None, 0)) == r
  }

  /** A round that ends the loop: at the end of the input, at a zero key or an error. */
  lemma LastRound(d: Desc, whole: Bytes, slots0: seq<Slot>, s: Bytes, st: Loop)
    requires |slots0| == |d.fields| == |st.slots| && Running(d, whole, slots0, s, st)
    ensures s == [] ==> Comes(d, whole, slots0, Some(st))
    ensures s != [] && Varint32(s).None? ==> Comes(d, whole, slots0, None)
    ensures s != [] && Varint32(s).Some? && Varint32(s).value.0 == 0 ==> Comes(d, whole, slots0, Some(st))
  {
  }

  /** A round with a tag that no field has. */
  lemma UnknownRound(d: Desc, whole: Bytes, slots0: seq<Slot>, s: Bytes, st: Loop, key: nat, rest: Bytes)
    requires |slots0| == |d.fields| == |st.slots| && Running(d, whole, slots0, s, st)
    requires s != [] && Varint32(s) == Some((key, rest)) && key != 0 && FindField(d, key / 8, 0).None?
    requires d.fields == [] ==> key / 8 != 0
    ensures match Skip(key % 8, rest)
            case None => Comes(d, whole, slots0, None)
            case Some(rest') => Running(d, whole, slots0, rest', st)
  {
    hide Varint32, Skip, FindField;
  }

  /** A round with tag zero, for an empty table. */
  lemma TerminatorRound(d: Desc, whole: Bytes, slots0: seq<Slot>, s: Bytes, st: Loop, key: nat, rest: Bytes)
    requires |slots0| == |d.fields| == |st.slots| && Running(d, whole, slots0, s, st)
    requires s != [] && Varint32(s) == Some((key, rest)) && key != 0 && key / 8 == 0 && d.fields == []
    ensures match Varint32(rest)
            case None => Comes(d, whole, slots0, None)
            case Some((_, rest')) => Running(d, whole, slots0, rest', st.(seen := st.seen + {0}))
  {
    hide Varint32, Skip;
    assert FindField(d, key / 8, 0).None?;
  }

  /** A round with the tag of field `i`. */
  lemma FieldRound(d: Desc, whole: Bytes, slots0: seq<Slot>, s: Bytes, st: Loop, key: nat, rest: Bytes, i: nat)
    requires |slots0| == |d.fields| == |st.slots| && Running(d, whole, slots0, s, st)
    requires s != [] && Varint32(s) == Some((key, rest)) && key != 0 && FindField(d, key / 8, 0) == Some(i)
    ensures Prepare(d, i, st).None? ==> Comes(d, whole, slots0, None)
    ensures Prepare(d, i, st).Some? ==>
              match StaticField(d, i, key % 8, rest, Prepare(d, i, st).value.slots)
              case None => Comes(d, whole, slots0, None)
              case Some((slots, rest')) => Running(d, whole, slots0, rest', Received(d, i, Prepare(d, i, st).value, slots))
  {
    hide Varint32, Skip, FindField, Prepare, StaticField, Received;
    var round := DecodeField(d, i, key % 8, rest, st);
    assert DecodeLoop(d, s, st) == match round case None => None case Some((st', rest')) => DecodeLoop(d, rest', st');
  }

  lemma NothingSeen()
    ensures Marks(0, 0, {})
  {
    NoWord(0, 32);
    NoWord(32, 32);
  }

  lemma {:induction false} NoWord(base: nat, n: nat)
    ensures WordOf({}, base, n) == 0
    decreases n
  {
    if n > 0 {
      NoWord(base, n - 1);
    }
  }

  lemma AtTheStart(d: Desc, whole: Bytes, slots0: seq<Slot>, fieldsSeen: array<nat>)
    requires |slots0| == |d.fields| && fieldsSeen.Length == 2 && fieldsSeen[0] == fieldsSeen[1] == 0
    ensures Running(d, whole, slots0, whole, Loop(slots0, {}, None, 0)) && Holds(d, Loop(slots0, {}, None, 0), fieldsSeen)
  {
    NothingSeen();
  }

  /** Before field `i` is read: begin a fixed-count array, mark a required field. */
  method PrepareField(d: Desc, i: nat, iter: Common.FieldIter, fieldsSeen: array<nat>,
      slots: seq<Slot>, fixedField: Option<nat>, fixedSize: nat, ghost st: Loop)
    returns (ok: bool, slots': seq<Slot>, fixedField': Option<nat>, fixedSize': nat, ghost st': Loop)
    requires i < |d.fields| && iter.Valid() && iter.start == RowsOf(d) && iter.pos == i
    requires st == Loop(slots, st.seen, fixedField, fixedSize) && Holds(d, st, fieldsSeen)
    modifies fieldsSeen
    ensures ok <==> Prepare(d, i, st).Some?
    ensures ok ==> st' == Prepare(d, i, st).value == Loop(slots', st'.seen, fixedField', fixedSize') && Holds(d, st', fieldsSeen)
  {
    hide Marks, Common.FieldIter.Valid, RequiredBefore, RowsOf, RequiredTotal;
    slots', fixedField', fixedSize', st' := slots, fixedField, fixedSize, st;
    ok := true;
    var f := d.fields[i];
    if f.presence.FixedCount? && fixedField != Some(i) {
      if fixedField.Some? && fixedSize != d.fields[fixedField.value].presence.count {
        // "wrong size for fixed count field"
        ok := false;
        return;
      }
      slots', fixedField', fixedSize' := slots[i := Many([])], Some(i), 0;
      st' := Loop(slots', st.seen, fixedField', fixedSize');
    }
    RequiredIndex(iter, d, i);
    var index := iter.requiredFieldIndex;
    if f.presence.Required? && index < PB_MAX_REQUIRED_FIELDS {
      MarkSeen(fieldsSeen, index, st.seen);
      st' := Loop(slots', st.seen + {index as int}, fixedField', fixedSize');
    }
  }

  lemma ReceivedHolds(d: Desc, i: nat, st: Loop, slots: seq<Slot>, fieldsSeen: array<nat>)
    requires i < |d.fields| == |slots| && Holds(d, st, fieldsSeen)
    ensures Holds(d, Received(d, i, st, slots), fieldsSeen)
    ensures Received(d, i, st, slots) ==
            Loop(slots, st.seen, st.fixedField, if d.fields[i].presence.FixedCount? then |ItemsOf(slots[i])| else st.fixedSize)
  {
  }

  /** What pb_decode_noinit makes of the end of its loop. */
  lemma Ends(d: Desc, whole: Bytes, slots0: seq<Slot>, end: Option<Loop>)
    requires |slots0| == |d.fields| && Comes(d, whole, slots0, end)
    ensures DecodeMessage(d, whole, slots0) ==
            if end.Some? && FixedDone(d, end.value) && RequiredSeen(d, end.value.seen) then Some(end.value.slots) else None
  {
    hide DecodeLoop, FixedDone, RequiredSeen;
  }

  /** The check of the last fixed-count array. */
  lemma LastFixedDone(d: Desc, st: Loop, fieldsSeen: array<nat>)
    requires Holds(d, st, fieldsSeen)
    ensures FixedDone(d, st) <==> (st.fixedField.Some? ==> st.fixedSize == d.fields[st.fixedField.value].presence.count)
  {
  }

  lemma FieldTypeOk(d: Desc, i: nat)
    requires DescOk(d) && i < |d.fields|
    ensures LTypeOk(d.fields[i].ltype)
  {
  }

  /** pb_decode_noinit. */
  method DecodeNoinit(stream: IStream, d: Desc, slots0: seq<Slot>) returns (r: Option<seq<Slot>>)
    requires stream.Valid() && DescOk(d) && |slots0| == |d.fields|
    modifies stream
    ensures stream.Valid() && stream.Moved(old(stream.state), old(stream.bytesLeft))
    ensures r == DecodeMessage(d, old(stream.Rest()), slots0)
    decreases d, 4
  {
    hide Varint32, Skip, StaticField, FindField, DecodeLoop, Marks, Common.FieldIter.Valid, RequiredBefore, RowsOf,
      Common.IsTable, Prepare, Running, Comes, SeenBelow, RequiredSeen,
      DecodeMessage, FixedDone, DescOk, LTypeOk, Later, Received;
    ghost var before, left, whole := stream.state, stream.bytesLeft, stream.Rest();
    var fieldsSeen := new nat[2](_ => 0);
    AtTheStart(d, whole, slots0, fieldsSeen);
    NotMoved(stream);
    var slots, fixedField: Option<nat>, fixedSize: nat := slots0, None, 0;
    RowsAreTable(d);
    var iter := new Common.FieldIter(RowsOf(d), 0);
    var _ := iter.Begin();
    ghost var st, zeroKey := Loop(slots, {}, fixedField, fixedSize), false;
    while stream.bytesLeft > 0
      invariant stream.Valid() && stream.Moved(before, left)
      invariant fresh(iter) && iter.Valid() && iter.start == RowsOf(d) && fresh(fieldsSeen)
      invariant st == Loop(slots, st.seen, fixedField, fixedSize) && Holds(d, st, fieldsSeen)
      invariant Running(d, whole, slots0, stream.Rest(), st) && !zeroKey
      decreases stream.bytesLeft
    {
      ghost var middle, n, s := stream.state, stream.bytesLeft, stream.Rest();
      LastRound(d, whole, slots0, s, st);
      var wire, tag, ok, eof := DecodeTag(stream);
      MovedOn(stream, before, left, middle, n);
      if !ok {
        if eof {
          zeroKey := true;
          break;
        }
        Ends(d, whole, slots0, None);
        return None;
      }
      ghost var key, rest := Varint32(s).value.0, stream.Rest();
      var found := iter.Find(tag);
      FindResult(iter, d, tag, found);
      middle, n := stream.state, stream.bytesLeft;
      if !found {
        // No match found, skip data.
        UnknownRound(d, whole, slots0, s, st, key, rest);
        var skipped := SkipField(stream, wire);
        MovedOn(stream, before, left, middle, n);
        if !skipped {
          Ends(d, whole, slots0, None);
          return None;
        }
        continue;
      }
      if |d.fields| == 0 {
        // The terminator of an empty table, which reads as a required bool.
        TerminatorRound(d, whole, slots0, s, st, key, rest);
        MarkSeen(fieldsSeen, 0, st.seen);
        var v := DecodeVarint32(stream);
        MovedOn(stream, before, left, middle, n);
        if v.None? {
          Ends(d, whole, slots0, None);
          return None;
        }
        st := Loop(slots, st.seen + {0}, fixedField, fixedSize);
        continue;
      }
      var i := iter.pos;
      var f := d.fields[i];
      FieldRound(d, whole, slots0, s, st, key, rest, i);
      var prepared: bool;
      ghost var st1;
      prepared, slots, fixedField, fixedSize, st1 := PrepareField(d, i, iter, fieldsSeen, slots, fixedField, fixedSize, st);
      if !prepared {
        Ends(d, whole, slots0, None);
        return None;
      }
      FieldTypeOk(d, i);
      var decoded := DecodeStaticField(stream, d, i, wire, slots);
      MovedOn(stream, before, left, middle, n);
      if decoded.None? {
        Ends(d, whole, slots0, None);
        return None;
      }
      slots := decoded.value;
      ReceivedHolds(d, i, st1, slots, fieldsSeen);
      if f.presence.FixedCount? {
        fixedSize := |ItemsOf(slots[i])|;
      }
      st := Loop(slots, st1.seen, fixedField, fixedSize);
    }
    if !zeroKey {
      LastRound(d, whole, slots0, stream.Rest(), st);
    }
    Ends(d, whole, slots0, Some(st));
    LastFixedDone(d, st, fieldsSeen);
    // Check that all elements of the last fixed-count array were present.
    if fixedField.Some? && fixedSize != d.fields[fixedField.value].presence.count {
      return None;
    }
    var all := CheckRequired(iter, d, fieldsSeen, st.seen);
    r := if all then Some(slots) else None;
  }

  /** The end of pb_decode_noinit: the check passes exactly if each of the first 64
      required fields occurred. */
  method CheckRequired(iter: Common.FieldIter, d: Desc, fieldsSeen: array<nat>, ghost seen: set<int>) returns (ok: bool)
    requires DescOk(d) && iter.Valid() && iter.start == RowsOf(d)
    requires fieldsSeen.Length == 2 && Marks(fieldsSeen[0], fieldsSeen[1], seen)
    requires d.fields != [] ==> SeenBelow(seen, RequiredTotal(d))
    modifies iter
    ensures ok <==> RequiredSeen(d, seen)
  {
    hide Marks, Common.FieldIter.Valid, RowsOf, RequiredBefore;
    var count := CountRequired(iter, d);
    if count == 0 {
      return true;
    }
    NoneInEmpty(d);
    ok := AllSeen(fieldsSeen, count, seen);
  }

  lemma NoneInEmpty(d: Desc)
    ensures d.fields == [] ==> RequiredTotal(d) == 0
  {
  }

  /** pb_field_iter_find on the table of a descriptor. */
  lemma FindResult(iter: Common.FieldIter, d: Desc, tag: nat, found: bool)
    requires DescOk(d) && iter.Valid() && iter.start == RowsOf(d)
    requires found ==> iter.start[iter.pos].tag == tag
    requires tag != 0 ==> (found <==> exists i :: 0 <= i < |iter.start| - 1 && iter.start[i].tag == tag && !iter.start[i].extension)
    requires tag == 0 ==> (found <==> |iter.start| == 1 && !iter.start[0].extension)
    ensures found && d.fields != [] ==> iter.pos < |d.fields| && FindField(d, tag, 0) == Some(iter.pos)
    ensures found && d.fields == [] ==> FindField(d, tag, 0) == None && tag == 0
    ensures !found ==> FindField(d, tag, 0) == None && (d.fields == [] ==> tag != 0)
  {
    FindAgrees(d, tag, found, iter.pos);
  }

  lemma RequiredIndex(iter: Common.FieldIter, d: Desc, i: nat)
    requires iter.Valid() && iter.start == RowsOf(d) && iter.pos == i < |d.fields|
    ensures iter.requiredFieldIndex == RequiredBefore(d, i)
    ensures d.fields[i].presence.Required? && iter.requiredFieldIndex < PB_MAX_REQUIRED_FIELDS ==> iter.requiredFieldIndex < RequiredTotal(d)
  {
    RowsRequired(d, i);
    if d.fields[i].presence.Required? {
      RequiredGrows(d, i, |d.fields|);
    }
  }

  /** pb_decode. */
  method DecodeBuffer(buf: Bytes, d: Desc) returns (r: Option<seq<Slot>>)
    requires DescOk(d)
    ensures r == Decode(d, buf)
  {
    var stream := new IStream(buf, |buf|);
    assert buf[..|buf|] == buf;
    r := DecodeNoinit(stream, d, Defaults(d));
  }
}
