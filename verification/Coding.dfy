/** Fixed-width little-endian words, and the checksum kept in log and table trailers. */
module Coding {
  import opened DbFormat

  function Zeros(n: nat): (r: Bytes)
    ensures |r| == n && forall i :: 0 <= i < n ==> r[i] == 0
  {
    seq(n, _ => 0)
  }

  type Word = n: int | 0 <= n < 0x1_0000_0000

  function EncodeFixed32(n: Word): (r: Bytes)
    ensures |r| == 4
  {
    [n % 0x100, n / 0x100 % 0x100, n / 0x1_0000 % 0x100, n / 0x100_0000]
  }

  function DecodeFixed32(b: Bytes): Word
    requires |b| >= 4
  {
    (b[0] as int) + 0x100 * (b[1] as int) + 0x1_0000 * (b[2] as int) + 0x100_0000 * (b[3] as int)
  }

  lemma Fixed32RoundTrip(n: Word, rest: Bytes)
    ensures DecodeFixed32(EncodeFixed32(n) + rest) == n
  {
    var b := EncodeFixed32(n) + rest;
    assert b[0] == n % 0x100 && b[1] == n / 0x100 % 0x100;
    assert b[2] == n / 0x1_0000 % 0x100 && b[3] == n / 0x100_0000;
    assert n / 0x1_0000 == n / 0x100 / 0x100 && n / 0x100_0000 == n / 0x1_0000 / 0x100;
  }

  lemma ByteOf(b: nat, q: nat)
    requires b < 0x100
    ensures (b + 0x100 * q) % 0x100 == b && (b + 0x100 * q) / 0x100 == q
  {
  }

  lemma Quotients(b0: nat, b1: nat, b2: nat, b3: nat)
    requires b0 < 0x100 && b1 < 0x100 && b2 < 0x100 && b3 < 0x100
    ensures (b0 + 0x100 * b1 + 0x1_0000 * b2 + 0x100_0000 * b3) / 0x1_0000 == b2 + 0x100 * b3
    ensures (b0 + 0x100 * b1 + 0x1_0000 * b2 + 0x100_0000 * b3) / 0x100_0000 == b3
  {
  }

  /** Four bytes are what their word encodes to. */
  lemma Fixed32Inverse(b: Bytes)
    requires |b| == 4
    ensures EncodeFixed32(DecodeFixed32(b)) == b
  {
    var b0: int, b1: int, b2: int, b3: int := b[0], b[1], b[2], b[3];
    var q1: nat, q2: nat := b1 + 0x100 * b2 + 0x1_0000 * b3, b2 + 0x100 * b3;
    ByteOf(b0, q1);
    ByteOf(b1, q2);
    ByteOf(b2, b3);
    Quotients(b0, b1, b2, b3);
  }

  // ---------------------------------------------------------------- crc32c

  /** One byte of the checksum; the polynomial does not matter here. */
  type CrcStep = (Word, Byte) -> Word

  function Extend(step: CrcStep, crc: Word, data: Bytes): Word
    decreases |data|
  {
    if data == [] then crc else Extend(step, step(crc, data[0]), data[1..])
  }

  function CrcValue(step: CrcStep, data: Bytes): Word {
    Extend(step, 0, data)
  }

  /** Extending the checksum of a prefix gives the checksum of the whole. */
  lemma {:induction false} ExtendConcat(step: CrcStep, crc: Word, a: Bytes, b: Bytes)
    ensures Extend(step, Extend(step, crc, a), b) == Extend(step, crc, a + b)
    decreases |a|
  {
    if a == [] {
      assert a + b == b;
    } else {
      ExtendConcat(step, step(crc, a[0]), a[1..], b);
      assert (a + b)[1..] == a[1..] + b;
    }
  }

  /** Nothing has checksum 0, and each further byte is one step. */
  lemma CrcOfNothing(step: CrcStep)
    ensures CrcValue(step, []) == 0
  {
  }

  lemma ExtendByte(step: CrcStep, crc: Word, a: Bytes, b: Byte)
    ensures Extend(step, crc, a + [b]) == step(Extend(step, crc, a), b)
  {
    ExtendConcat(step, crc, a, [b]);
    assert [b][1..] == [];
  }

  /** As the step of a CRC is: no two checksums, and no two bytes, lead to the same one. */
  ghost predicate Injective(step: CrcStep) {
    && (forall c, c', b :: step(c, b) == step(c', b) ==> c == c')
    && forall c, b, b' :: step(c, b) == step(c, b') ==> b == b'
  }

  lemma {:induction false} KeepsApart(step: CrcStep, c: Word, c': Word, data: Bytes)
    requires Injective(step) && c != c'
    ensures Extend(step, c, data) != Extend(step, c', data)
    decreases |data|
  {
    if data != [] {
      KeepsApart(step, step(c, data[0]), step(c', data[0]), data[1..]);
    }
  }

  /** One changed byte changes the checksum. */
  lemma OneByteChanged(step: CrcStep, data: Bytes, i: nat, b: Byte)
    requires Injective(step) && i < |data| && b != data[i]
    ensures CrcValue(step, data[i := b]) != CrcValue(step, data)
  {
    var a, c := data[..i], data[i + 1..];
    assert data == a + [data[i]] + c && data[i := b] == a + [b] + c;
    ExtendByte(step, 0, a, b);
    ExtendByte(step, 0, a, data[i]);
    ExtendConcat(step, 0, a + [b], c);
    ExtendConcat(step, 0, a + [data[i]], c);
    KeepsApart(step, Extend(step, 0, a + [b]), Extend(step, 0, a + [data[i]]), c);
  }

  const kMaskDelta: Word := 0xa282_ead8

  /** Rotate right by 15 bits and add a constant, modulo the word size. */
  function Mask(crc: Word): Word {
    (crc / 0x8000 + crc % 0x8000 * 0x2_0000 + kMaskDelta) % 0x1_0000_0000
  }

  function Unmask(masked: Word): Word {
    var rot := (masked - kMaskDelta) % 0x1_0000_0000;
    rot / 0x2_0000 + rot % 0x2_0000 * 0x8000
  }

  lemma UnmaskMask(crc: Word)
    ensures Unmask(Mask(crc)) == crc
  {
    var rotated := crc / 0x8000 + crc % 0x8000 * 0x2_0000;
    AddDelta(rotated);
    assert rotated / 0x2_0000 == crc % 0x8000 && rotated % 0x2_0000 == crc / 0x8000;
  }

  lemma AddDelta(n: Word)
    ensures ((n + kMaskDelta) % 0x1_0000_0000 - kMaskDelta) % 0x1_0000_0000 == n
  {
  }

  lemma SubtractDelta(n: Word)
    ensures ((n - kMaskDelta) % 0x1_0000_0000 + kMaskDelta) % 0x1_0000_0000 == n
  {
  }

  /** Masking loses nothing: it is a bijection on words. */
  lemma MaskUnmask(masked: Word)
    ensures Mask(Unmask(masked)) == masked
  {
    var rot := (masked - kMaskDelta) % 0x1_0000_0000;
    var crc := Unmask(masked);
    SubtractDelta(masked);
    assert crc / 0x8000 == rot % 0x2_0000 && crc % 0x8000 == rot / 0x2_0000;
  }

  // ---------------------------------------------------------------- varints

  function Pow128(n: nat): (p: nat)
    ensures p > 0
  {
    if n == 0 then 1 else 128 * Pow128(n - 1)
  }

  /** Seven bits a byte, low bits first, the high bit set on every byte but the last. */
  function EncodeVarint(v: nat): (r: Bytes)
    ensures r != []
  {
    if v < 128 then [v] else [v % 128 + 128] + EncodeVarint(v / 128)
  }

  /** What at most `n` bytes of `s` decode to, and what follows them. */
  function DecodeVarint(s: Bytes, n: nat): (r: Option<(nat, Bytes)>)
    ensures r.Some? ==> |r.value.1| < |s| && r.value.1 == s[|s| - |r.value.1|..]
  {
    if s == [] || n == 0 then None
    else if s[0] < 128 then Some((s[0], s[1..]))
    else
      match DecodeVarint(s[1..], n - 1)
      case None => None
      case Some((v, rest)) => Some((s[0] - 128 + 128 * v, rest))
  }

  lemma {:induction false} VarintRoundTrip(v: nat, n: nat, rest: Bytes)
    requires v < Pow128(n) && n > 0
    ensures DecodeVarint(EncodeVarint(v) + rest, n) == Some((v, rest))
    decreases n
  {
    var s := EncodeVarint(v) + rest;
    if v < 128 {
      assert s[1..] == rest;
    } else {
      VarintRoundTrip(v / 128, n - 1, rest);
      assert s[1..] == EncodeVarint(v / 128) + rest;
    }
  }

  lemma {:induction false} VarintLength(v: nat, n: nat)
    requires v < Pow128(n) && n > 0
    ensures |EncodeVarint(v)| <= n
    decreases n
  {
    if v >= 128 {
      VarintLength(v / 128, n - 1);
    }
  }

  lemma Pow128Values()
    ensures Pow128(5) > 0xffff_ffff && Pow128(10) > 0xffff_ffff_ffff_ffff
  {
    assert Pow128(1) == 128 && Pow128(2) == 128 * 128;
    assert Pow128(5) == 128 * 128 * 128 * Pow128(2);
    assert Pow128(10) == 128 * 128 * 128 * 128 * 128 * Pow128(5);
  }

  /** EncodeVarint64: shift out seven bits at a time. */
  method PutVarint64(v: nat) returns (r: Bytes)
    ensures r == EncodeVarint(v)
  {
    r := [];
    var left := v;
    while left >= 128
      invariant r + EncodeVarint(left) == EncodeVarint(v)
    {
      r := r + [left % 128 + 128];
      left := left / 128;
    }
    r := r + [left];
  }

  /** EncodeVarint32: one branch for each length from one byte to five. */
  method PutVarint32(v: Word) returns (r: Bytes)
    ensures r == EncodeVarint(v)
  {
    hide EncodeVarint;
    var v7, v14, v21, v28 := v / 0x80, v / 0x4000, v / 0x20_0000, v / 0x1000_0000;
    Shifts(v);
    FiveBytes(v, v7, v14, v21, v28);
    if v < 0x80 {
      r := [v];
    } else if v < 0x4000 {
      r := [Continued(v), v7];
    } else if v < 0x20_0000 {
      r := [Continued(v), Continued(v7), v14];
    } else if v < 0x1000_0000 {
      r := [Continued(v), Continued(v7), Continued(v14), v21];
    } else {
      r := [Continued(v), Continued(v7), Continued(v14), Continued(v21), v28];
    }
  }

  /** The low seven bits with the high bit set: `v | 128` cut to a byte. */
  function Continued(v: nat): Byte {
    v % 128 + 128
  }

  lemma FiveBytes(v: nat, v7: nat, v14: nat, v21: nat, v28: nat)
    requires v < 0x1_0000_0000 && v7 == v / 128 && v14 == v7 / 128 && v21 == v14 / 128 && v28 == v21 / 128
    ensures v < 0x80 ==> EncodeVarint(v) == [v]
    ensures 0x80 <= v < 0x4000 ==> v7 < 128 && EncodeVarint(v) == [Continued(v), v7]
    ensures 0x4000 <= v < 0x20_0000 ==> v14 < 128 && EncodeVarint(v) == [Continued(v), Continued(v7), v14]
    ensures 0x20_0000 <= v < 0x1000_0000 ==>
              v21 < 128 && EncodeVarint(v) == [Continued(v), Continued(v7), Continued(v14), v21]
    ensures 0x1000_0000 <= v ==>
              v28 < 128 && EncodeVarint(v) == [Continued(v), Continued(v7), Continued(v14), Continued(v21), v28]
  {
    hide EncodeVarint, Continued;
    VarintStep(v);
    VarintStep(v7);
    VarintStep(v14);
    VarintStep(v21);
    VarintStep(v28);
  }

  lemma VarintStep(v: nat)
    ensures EncodeVarint(v) == if v < 128 then [v] else [Continued(v)] + EncodeVarint(v / 128)
  {
  }

  lemma Shifts(v: nat)
    ensures v / 0x80 / 128 == v / 0x4000 && v / 0x4000 / 128 == v / 0x20_0000 && v / 0x20_0000 / 128 == v / 0x1000_0000
  {
  }

  /** `result` with `bits` put in above those below `scale`. */
  function WithBits(result: nat, scale: nat, bits: nat): nat {
    result + scale * bits
  }

  /** With `result` read so far and `d` what is left, `goal` is the whole. */
  ghost predicate Remaining(goal: Option<(nat, Bytes)>, result: nat, scale: nat, d: Option<(nat, Bytes)>) {
    goal == if d.None? then None else Some((result + scale * d.value.0, d.value.1))
  }

  lemma RemainingStart(goal: Option<(nat, Bytes)>)
    ensures Remaining(goal, 0, 1, goal)
  {
  }

  lemma RemainingStep(goal: Option<(nat, Bytes)>, result: nat, scale: nat, s: Bytes, n: nat)
    requires Remaining(goal, result, scale, DecodeVarint(s, n))
    ensures s == [] || n == 0 ==> goal == None
    ensures s != [] && n > 0 && s[0] < 128 ==> goal == Some((WithBits(result, scale, s[0]), s[1..]))
    ensures s != [] && n > 0 && s[0] >= 128 ==>
              Remaining(goal, WithBits(result, scale, s[0] - 128), scale * 128, DecodeVarint(s[1..], n - 1))
  {
    if s != [] && n > 0 && s[0] >= 128 {
      var d := DecodeVarint(s[1..], n - 1);
      if d.Some? {
        var low, high := s[0] as int - 128, d.value.0;
        assert scale * (low + 128 * high) == scale * low + scale * 128 * high;
      }
    }
  }

  /** The loop of GetVarint32 and GetVarint64 over at most `n` bytes. */
  method ScanVarint(input: Bytes, n: nat) returns (r: Option<(nat, Bytes)>)
    ensures r == DecodeVarint(input, n)
  {
    hide WithBits, DecodeVarint, Remaining;
    var result: nat, scale: nat, p := 0, 1, 0;
    ghost var goal := DecodeVarint(input, n);
    assert input[0..] == input;
    RemainingStart(goal);
    while p < n && p < |input|
      invariant p <= n && p <= |input| && 0 < scale
      invariant Remaining(goal, result, scale, DecodeVarint(input[p..], n - p))
    {
      var byte: nat := input[p];
      RemainingStep(goal, result, scale, input[p..], n - p);
      assert input[p..][1..] == input[p + 1..] && input[p..][0] == byte;
      p := p + 1;
      if byte >= 128 {
        result := WithBits(result, scale, byte - 128);
        scale := scale * 128;
      } else {
        result := WithBits(result, scale, byte);
        return Some((result, input[p..]));
      }
    }
    RemainingStep(goal, result, scale, input[p..], n - p);
    return None;
  }

  /** The shifts lose the bits above the word size. */
  method GetVarint32(input: Bytes) returns (r: Option<(nat, Bytes)>)
    ensures var d := DecodeVarint(input, 5);
            r == if d.None? then None else Some((d.value.0 % 0x1_0000_0000, d.value.1))
  {
    hide DecodeVarint;
    var d := ScanVarint(input, 5);
    r := if d.None? then None else Some((d.value.0 % 0x1_0000_0000, d.value.1));
  }

  method GetVarint64(input: Bytes) returns (r: Option<(nat, Bytes)>)
    ensures var d := DecodeVarint(input, 10);
            r == if d.None? then None else Some((d.value.0 % 0x1_0000_0000_0000_0000, d.value.1))
  {
    hide DecodeVarint;
    var d := ScanVarint(input, 10);
    r := if d.None? then None else Some((d.value.0 % 0x1_0000_0000_0000_0000, d.value.1));
  }

  // ---------------------------------------------------------------- length-prefixed bytes

  function LengthPrefixed(data: Bytes): Bytes {
    EncodeVarint(|data|) + data
  }

  /** GetLengthPrefixedSlice. */
  function DecodeLengthPrefixed(s: Bytes): (r: Option<(Bytes, Bytes)>)
    ensures r.Some? ==> |r.value.1| < |s|
  {
    match DecodeVarint(s, 5)
    case None => None
    case Some((v, rest)) =>
      var length := v % 0x1_0000_0000;
      if length <= |rest| then Some((rest[..length], rest[length..])) else None
  }

  /** What is read does not depend on what follows. */
  lemma {:induction false} DecodeVarintLocal(s: Bytes, n: nat, b: Bytes)
    requires DecodeVarint(s, n).Some?
    ensures DecodeVarint(s + b, n) == Some((DecodeVarint(s, n).value.0, DecodeVarint(s, n).value.1 + b))
    decreases n
  {
    assert (s + b)[1..] == s[1..] + b;
    if s[0] >= 128 {
      DecodeVarintLocal(s[1..], n - 1, b);
    }
  }

  lemma LengthPrefixedLocal(s: Bytes, b: Bytes)
    requires DecodeLengthPrefixed(s).Some?
    ensures var (data, rest) := DecodeLengthPrefixed(s).value; DecodeLengthPrefixed(s + b) == Some((data, rest + b))
  {
    hide DecodeVarint;
    DecodeVarintLocal(s, 5, b);
    var (size, rest) := DecodeVarint(s, 5).value;
    assert (rest + b)[..size % 0x1_0000_0000] == rest[..size % 0x1_0000_0000];
    assert (rest + b)[size % 0x1_0000_0000..] == rest[size % 0x1_0000_0000..] + b;
  }

  lemma LengthPrefixedRoundTrip(data: Bytes, rest: Bytes)
    requires |data| <= 0xffff_ffff
    ensures DecodeLengthPrefixed(LengthPrefixed(data) + rest) == Some((data, rest))
  {
    Pow128Values();
    VarintRoundTrip(|data|, 5, data + rest);
    assert LengthPrefixed(data) + rest == EncodeVarint(|data|) + (data + rest);
  }

  // ---------------------------------------------------------------- 64-bit words

  type Word64 = n: int | 0 <= n < 0x1_0000_0000_0000_0000

  function EncodeFixed64(n: Word64): (r: Bytes)
    ensures |r| == 8
  {
    EncodeFixed32(n % 0x1_0000_0000) + EncodeFixed32(n / 0x1_0000_0000)
  }

  function DecodeFixed64(b: Bytes): Word64
    requires |b| >= 8
  {
    DecodeFixed32(b) as int + 0x1_0000_0000 * (DecodeFixed32(b[4..]) as int)
  }

  lemma Fixed64RoundTrip(n: Word64, rest: Bytes)
    ensures DecodeFixed64(EncodeFixed64(n) + rest) == n
  {
    var lo, hi := EncodeFixed32(n % 0x1_0000_0000), EncodeFixed32(n / 0x1_0000_0000);
    Fixed32RoundTrip(n % 0x1_0000_0000, hi + rest);
    Fixed32RoundTrip(n / 0x1_0000_0000, rest);
    var b := EncodeFixed64(n) + rest;
    assert b == lo + (hi + rest);
    assert b[4..] == hi + rest;
  }
}
