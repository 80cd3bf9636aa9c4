/** The field decoders of nanopb on any bytes: which bytes they take, and for what value. */
module PbScalars {
  import opened DbFormat
  import opened Coding
  import opened Bits
  import opened Varints
  import opened PbMessage
  import opened PbWire
  import opened PbTyping

  // ---------------------------------------------------------------- words of 32 bits

  /** What the first `n` bytes are taken for: the low 32 bits of the first five. */
  function Low32(s: Bytes, n: nat): nat
    requires n <= |s|
  {
    Base128(s[..if n < 5 then n else 5]) % 0x1_0000_0000
  }

  /** A byte after the first five adds nothing: its bits are zeros, or they are those of a
      negative number of 64 bits. */
  predicate Padding(s: Bytes, j: nat, word: nat)
    requires j < |s|
  {
    s[j] % 128 == 0 || (word >= 0x8000_0000 && s[j] == if j < 9 then 0xff else 0x01)
  }

  /** The first `n` bytes are one varint that is accepted: if it ends with the fifth byte,
      that one has four bits at most; later bytes are padding. */
  ghost predicate Accepted(s: Bytes, n: nat) {
    && IsVarint(s, n) && (n == 5 ==> s[4] < 16)
    && forall j :: 5 <= j < n ==> Padding(s, j, Low32(s, n))
  }

  ghost predicate IsWord(s: Bytes, n: nat, v: nat, rest: Bytes) {
    Accepted(s, n) && v == Low32(s, n) && rest == s[n..]
  }

  lemma Varint32Is(s: Bytes, v: nat, rest: Bytes)
    ensures Varint32(s) == Some((v, rest)) <==> exists n: nat :: IsWord(s, n, v, rest)
  {
    hide IsWord, MoreVarint32;
    if Varint32(s) == Some((v, rest)) {
      if s[0] < 128 {
        OneByteWord(s);
      } else {
        Started(s);
        var n := ReadOn(s, 1, s[0] - 128, v, rest);
      }
    }
    if n: nat :| IsWord(s, n, v, rest) {
      WordParts(s, n, v, rest);
      if n == 1 {
        OneByteWord(s);
      } else {
        Started(s);
        ReadBack(s, 1, s[0] - 128, n);
      }
    }
  }

  lemma WordParts(s: Bytes, n: nat, v: nat, rest: Bytes)
    requires IsWord(s, n, v, rest)
    ensures Accepted(s, n) && IsVarint(s, n) && n <= |s| && v == Low32(s, n) && rest == s[n..] && (n > 1 ==> s[0] >= 128)
    ensures n == 1 ==> s[0] < 128
  {
  }

  lemma OneByteWord(s: Bytes)
    requires s != [] && s[0] < 128
    ensures IsWord(s, 1, s[0], s[1..]) && Low32(s, 1) == s[0]
  {
    OneByte(s);
  }

  lemma Started(s: Bytes)
    requires s != [] && s[0] >= 128
    ensures Low32(s, 1) == s[0] - 128 && s[1..] == s[1..]
  {
    assert s[..1] == [s[0]];
    assert Base128([s[0]]) == s[0] % 128 + 128 * Base128([s[0]][1..]);
  }

  /** The state of the loop after `k` bytes that all go on. */
  ghost predicate Reading(s: Bytes, k: nat, result: nat) {
    && 1 <= k <= |s| && (forall i :: 0 <= i < k ==> s[i] >= 128)
    && result == Low32(s, k) && forall j :: 5 <= j < k ==> Padding(s, j, result)
  }

  /** One more byte. */
  lemma NextByte(s: Bytes, k: nat, result: nat)
    requires Reading(s, k, result) && k < |s|
    ensures Low32(s, k + 1) == if k < 5 then Placed(result, s[k], 7 * k) else result
  {
    if k < 5 {
      assert s[..k + 1] == s[..k] + [s[k]];
      Base128Snoc(s[..k], s[k]);
      hide Base128;
      NextBits(Base128(s[..k]), s[k], k);
    }
  }

  lemma NextBits(low: nat, byte: Byte, k: nat)
    requires 1 <= k < 5 && low < Pow128(k)
    ensures (low + Pow128(k) * (byte % 128)) % 0x1_0000_0000 == Placed(low % 0x1_0000_0000, byte, 7 * k)
  {
    Powers();
    hide Pow128, TwoTo;
    assert low % 0x1_0000_0000 == low;
    assert Pow128(k) == TwoTo(7 * k);
    Swap(Pow128(k), byte % 128);
    assert At(byte % 128, 7 * k) == Pow128(k) * (byte % 128);
  }

  lemma Swap(p: nat, x: nat)
    ensures p * x == x * p
  {
  }

  lemma Powers()
    ensures Pow128(1) == TwoTo(7) == 0x80 && Pow128(2) == TwoTo(14) == 0x4000
    ensures Pow128(3) == TwoTo(21) == 0x20_0000 && Pow128(4) == TwoTo(28) == 0x1000_0000
  {
    TwoToValues();
    assert Pow128(1) == 128;
  }

  lemma {:induction false} Base128Snoc(b: Bytes, x: Byte)
    ensures Base128(b + [x]) == Base128(b) + Pow128(|b|) * (x % 128) && Base128(b) < Pow128(|b|)
    decreases |b|
  {
    if b == [] {
      assert b + [x] == [x] && [x][1..] == [];
    } else {
      Base128Snoc(b[1..], x);
      assert (b + [x])[1..] == b[1..] + [x];
      TimesHigh(Pow128(|b| - 1), x % 128);
    }
  }

  lemma TimesHigh(p: nat, x: nat)
    ensures 128 * (p * x) == 128 * p * x
  {
  }

  lemma {:induction false} ReadOn(s: Bytes, k: nat, result: nat, v: nat, rest: Bytes) returns (n: nat)
    requires Reading(s, k, result) && result < Modulus(4) && MoreVarint32(s[k..], result, 7 * k) == Some((v, rest))
    ensures IsWord(s, n, v, rest)
    decreases |s| - k
  {
    hide Low32, Placed, Base128;
    NextByte(s, k, result);
    assert s[k..][0] == s[k] && s[k..][1..] == s[k + 1..];
    var next := if k < 5 then Placed(result, s[k], 7 * k) else result;
    if s[k] >= 128 {
      n := ReadOn(s, k + 1, next, v, rest);
    } else {
      n := k + 1;
    }
  }

  lemma {:induction false} ReadBack(s: Bytes, k: nat, result: nat, n: nat)
    requires Reading(s, k, result) && result < Modulus(4) && Accepted(s, n) && k < n
    ensures MoreVarint32(s[k..], result, 7 * k) == Some((Low32(s, n), s[n..]))
    decreases |s| - k
  {
    hide Base128;
    NextByte(s, k, result);
    hide Low32, Placed;
    SameWordLater(s, k, n);
    assert s[k..][0] == s[k] && s[k..][1..] == s[k + 1..];
    assert k >= 5 ==> Padding(s, k, result);
    var next := if k < 5 then Placed(result, s[k], 7 * k) else result;
    if k + 1 < n {
      assert s[k] >= 128;
      ReadBack(s, k + 1, next, n);
      assert 7 * (k + 1) == 7 * k + 7;
    } else {
      assert s[k] < 128 && next == Low32(s, n);
    }
  }

  lemma SameWordLater(s: Bytes, k: nat, n: nat)
    requires k < n <= |s|
    ensures k >= 5 ==> Low32(s, n) == Low32(s, k)
  {
  }

  /** A varint is skipped up to its last byte, whatever its length. */
  lemma {:induction false} SkipVarintIs(s: Bytes, rest: Bytes)
    ensures SkipVarint(s) == Some(rest) <==> exists n: nat :: IsVarint(s, n) && rest == s[n..]
    decreases |s|
  {
    if s != [] {
      if s[0] < 128 {
        OneByte(s);
        forall n: nat | IsVarint(s, n)
          ensures n == 1
        {
        }
      } else {
        SkipVarintIs(s[1..], rest);
        forall m: nat | 1 <= m < |s|
          ensures IsVarint(s, m + 1) <==> IsVarint(s[1..], m)
          ensures s[m + 1..] == s[1..][m..]
        {
          ByteMore(s, m);
        }
        if m: nat :| IsVarint(s[1..], m) && rest == s[1..][m..] {
          assert IsVarint(s, m + 1);
        }
        if n: nat :| IsVarint(s, n) && rest == s[n..] {
          assert n > 1 && IsVarint(s[1..], n - 1);
        }
      }
    }
  }

  /** The numbers that fit a field of so many bytes. */
  lemma WidthIs(size: nat, n: int)
    requires SizeOk(size)
    ensures Modulus(size) == Pow256(size)
    ensures Signed(n, size) <==> 2 * n < Pow256(size) && 2 * n + Pow256(size) >= 0
  {
    assert Pow256(2) == 256 * Pow256(1) && Pow256(4) == 256 * (256 * Pow256(2));
    assert Pow256(8) == 256 * (256 * (256 * (256 * Pow256(4))));
  }

  // ---------------------------------------------------------------- fields

  /** `data` with its length before it, and `rest` behind it. */
  ghost predicate Prefixed(s: Bytes, data: Bytes, rest: Bytes) {
    exists n: nat :: IsWord(s, n, |data|, data + rest)
  }

  lemma SubstreamIs(s: Bytes, data: Bytes, rest: Bytes)
    ensures Substream(s) == Some((data, rest)) <==> Prefixed(s, data, rest)
  {
    hide Varint32, IsWord;
    if Substream(s) == Some((data, rest)) {
      var (size, after) := Varint32(s).value;
      assert after == data + rest && size == |data|;
    }
    Varint32Is(s, |data|, data + rest);
    assert (data + rest)[..|data|] == data && (data + rest)[|data|..] == rest;
  }

  /** A varint of ten bytes at most that says `w`. */
  ghost predicate SaysWide(s: Bytes, w: nat, rest: Bytes) {
    exists n: nat :: n <= 10 && Says(s, n, w, rest)
  }

  lemma Varint64Is(s: Bytes, v: nat, rest: Bytes)
    ensures Varint64(s) == Some((v, rest)) <==> exists w: nat :: SaysWide(s, w, rest) && v == w % 0x1_0000_0000_0000_0000
  {
    hide DecodeVarint, Says;
    if Varint64(s) == Some((v, rest)) {
      var w := DecodeVarint(s, 10).value.0;
      DecodeVarintIs(s, 10, w, rest);
      assert SaysWide(s, w, rest);
    }
    if w: nat :| SaysWide(s, w, rest) && v == w % 0x1_0000_0000_0000_0000 {
      DecodeVarintIs(s, 10, w, rest);
    }
  }

  /** `v` as a field of type `t` is what `s` begins with. */
  ghost predicate Means(t: LType, s: Bytes, v: Datum, rest: Bytes)
    requires LTypeOk(t) && !t.Submessage?
  {
    match t
    case Bool => exists n: nat, w: nat :: IsWord(s, n, w, rest) && v == Int(if w == 0 then 0 else 1)
    case Varint(size) =>
      v.Int? && Signed(v.n, size) && exists w: nat :: SaysWide(s, w, rest) && SameWord(w, v.n, if size == 8 then 8 else 4)
    case Uvarint(size) =>
      v.Int? && 0 <= v.n < Modulus(size) && exists w: nat :: SaysWide(s, w, rest) && v.n == w % 0x1_0000_0000_0000_0000
    case Svarint(size) =>
      v.Int? && Signed(v.n, size) && exists w: nat :: SaysWide(s, w, rest) && ZigZag(v.n) == w % 0x1_0000_0000_0000_0000
    case Fixed32 => |s| >= 4 && v == Int(Base256(s[..4])) && rest == s[4..]
    case Fixed64 => |s| >= 8 && v == Int(Base256(s[..8])) && rest == s[8..]
    case BytesArray(capacity) => v.Raw? && |v.data| <= capacity && Prefixed(s, v.data, rest)
    case Str(capacity) => v.Raw? && exists data: Bytes :: Prefixed(s, data, rest) && |data| + 1 <= capacity && BeforeNul(v.data, data)
    case FixedBytes(length) =>
      exists data: Bytes :: Prefixed(s, data, rest) && v == (if data == [] then Raw(seq(length, _ => 0)) else Raw(data)) && |v.data| == length
  }

  /** What stands before the first NUL of `data`, or all of it. */
  predicate BeforeNul(part: Bytes, data: Bytes) {
    part <= data && 0 !in part && (part == data || data[|part|] == 0)
  }

  /** A field of any other type than a message is read exactly if its bytes are there and
      their value fits. */
  lemma ScalarIs(t: LType, s: Bytes, v: Datum, rest: Bytes)
    requires LTypeOk(t) && !t.Submessage?
    ensures DecodeScalar(t, s) == Some((v, rest)) <==> Means(t, s, v, rest)
  {
    match t
    case Bool => BoolIs(s, v, rest);
    case Varint(size) => SignedIs(size, s, v, rest);
    case Uvarint(size) => UnsignedIs(size, s, v, rest);
    case Svarint(size) => ZigZagIs(size, s, v, rest);
    case Fixed32 => if |s| >= 4 { Fixed32Is(s); }
    case Fixed64 => if |s| >= 8 { Fixed64Is(s); }
    case BytesArray(capacity) => if v.Raw? { SubstreamIs(s, v.data, rest); }
    case Str(capacity) => StringIs(capacity, s, v, rest);
    case FixedBytes(length) => FixedBytesIs(length, s, v, rest);
  }

  lemma BoolIs(s: Bytes, v: Datum, rest: Bytes)
    ensures DecodeScalar(Bool, s) == Some((v, rest)) <==> Means(Bool, s, v, rest)
  {
    hide Varint32, IsWord;
    if DecodeScalar(Bool, s) == Some((v, rest)) {
      Varint32Is(s, Varint32(s).value.0, rest);
    }
    if n: nat, w: nat :| IsWord(s, n, w, rest) && v == Int(if w == 0 then 0 else 1) {
      Varint32Is(s, w, rest);
    }
  }

  lemma SignedIs(size: nat, s: Bytes, v: Datum, rest: Bytes)
    requires SizeOk(size)
    ensures DecodeScalar(Varint(size), s) == Some((v, rest)) <==> Means(Varint(size), s, v, rest)
  {
    hide Varint64, SaysWide, SameWord, CastSigned;
    var k: nat := if size == 8 then 8 else 4;
    if DecodeScalar(Varint(size), s) == Some((v, rest)) {
      var n := Varint64(s).value.0;
      Varint64Is(s, n, rest);
      var w: nat :| SaysWide(s, w, rest) && n == w % 0x1_0000_0000_0000_0000;
      CastIs(n, size, v.n);
      SameLowBits(w, n, v.n, k);
    }
    if Means(Varint(size), s, v, rest) {
      var w: nat :| SaysWide(s, w, rest) && SameWord(w, v.n, k);
      var n := w % 0x1_0000_0000_0000_0000;
      Varint64Is(s, n, rest);
      SameLowBits(w, n, v.n, k);
      CastIs(n, size, v.n);
    }
  }

  lemma SameLowBits(w: nat, n: nat, v: int, k: nat)
    requires n == w % 0x1_0000_0000_0000_0000 && (k == 4 || k == 8)
    ensures SameWord(w, v, k) <==> SameWord(n, v, k)
  {
    var high := w / 0x1_0000_0000_0000_0000;
    var step := if k == 8 then high else high * 0x1_0000_0000;
    assert w == n + step * Modulus(k);
    if q: int :| Apart(w, v, q, k) {
      assert Apart(n, v, q - step, k);
    }
    if q: int :| Apart(n, v, q, k) {
      assert Apart(w, v, q + step, k);
    }
  }

  lemma UnsignedIs(size: nat, s: Bytes, v: Datum, rest: Bytes)
    requires SizeOk(size)
    ensures DecodeScalar(Uvarint(size), s) == Some((v, rest)) <==> Means(Uvarint(size), s, v, rest)
  {
    hide Varint64, SaysWide;
    if v.Int? && v.n >= 0 {
      Varint64Is(s, v.n, rest);
    }
  }

  lemma ZigZagIs(size: nat, s: Bytes, v: Datum, rest: Bytes)
    requires SizeOk(size)
    ensures DecodeScalar(Svarint(size), s) == Some((v, rest)) <==> Means(Svarint(size), s, v, rest)
  {
    hide Varint64, SaysWide, UnZigZag, ZigZag;
    if DecodeScalar(Svarint(size), s) == Some((v, rest)) {
      var n := Varint64(s).value.0;
      Varint64Is(s, n, rest);
      ZigZagOnto(n);
    }
    if Means(Svarint(size), s, v, rest) {
      Varint64Is(s, ZigZag(v.n), rest);
      ZigZagRoundTrip(v.n);
    }
  }

  lemma StringIs(capacity: nat, s: Bytes, v: Datum, rest: Bytes)
    requires LTypeOk(Str(capacity))
    ensures DecodeScalar(Str(capacity), s) == Some((v, rest)) <==> Means(Str(capacity), s, v, rest)
  {
    hide Substream, UpToNul, Prefixed;
    if DecodeScalar(Str(capacity), s) == Some((v, rest)) {
      var data := Substream(s).value.0;
      SubstreamIs(s, data, rest);
      StringPart(data);
    }
    if Means(Str(capacity), s, v, rest) {
      var data: Bytes :| Prefixed(s, data, rest) && |data| + 1 <= capacity && BeforeNul(v.data, data);
      SubstreamIs(s, data, rest);
      OnePart(v.data, data);
    }
  }

  lemma OnePart(part: Bytes, data: Bytes)
    requires BeforeNul(part, data)
    ensures part == UpToNul(data)
  {
    StringPart(data);
    hide UpToNul;
    SamePart(part, UpToNul(data), data);
  }

  lemma SamePart(part: Bytes, other: Bytes, data: Bytes)
    requires BeforeNul(part, data) && BeforeNul(other, data)
    ensures part == other
  {
    assert forall i :: 0 <= i < |part| ==> data[i] != 0;
    assert forall i :: 0 <= i < |other| ==> data[i] != 0;
    assert |part| == |other|;
  }

  lemma FixedBytesIs(length: nat, s: Bytes, v: Datum, rest: Bytes)
    requires LTypeOk(FixedBytes(length))
    ensures DecodeScalar(FixedBytes(length), s) == Some((v, rest)) <==> Means(FixedBytes(length), s, v, rest)
  {
    hide Substream, Prefixed;
    if DecodeScalar(FixedBytes(length), s) == Some((v, rest)) {
      SubstreamIs(s, Substream(s).value.0, rest);
    }
    if Means(FixedBytes(length), s, v, rest) {
      var data: Bytes :| Prefixed(s, data, rest) && v == (if data == [] then Raw(seq(length, _ => 0)) else Raw(data)) && |v.data| == length;
      SubstreamIs(s, data, rest);
    }
  }
}
