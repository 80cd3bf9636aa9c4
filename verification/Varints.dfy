/** What the bytes of a number mean, told without the codecs: seven bits a byte for
    varints, eight for fixed-width words, the low ones first. */
module Varints {
  import opened DbFormat
  import opened Coding

  /** The first `n` bytes are one varint: all but the last have the high bit set. */
  ghost predicate IsVarint(s: Bytes, n: nat) {
    1 <= n <= |s| && (forall i :: 0 <= i < n - 1 ==> s[i] >= 128) && s[n - 1] < 128
  }

  function Base128(b: Bytes): nat {
    if b == [] then 0 else b[0] % 128 + 128 * Base128(b[1..])
  }

  function Base256(b: Bytes): nat {
    if b == [] then 0 else b[0] + 256 * Base256(b[1..])
  }

  /** `v` is what the first `n` bytes say, and `rest` follows them. */
  ghost predicate Says(s: Bytes, n: nat, v: nat, rest: Bytes) {
    IsVarint(s, n) && v == Base128(s[..n]) && rest == s[n..]
  }

  /** A varint is read exactly if one of at most `max` bytes is there. */
  lemma DecodeVarintIs(s: Bytes, max: nat, v: nat, rest: Bytes)
    ensures DecodeVarint(s, max) == Some((v, rest)) <==> exists n: nat :: n <= max && Says(s, n, v, rest)
  {
    hide DecodeVarint, Says;
    if DecodeVarint(s, max) == Some((v, rest)) {
      var n := DecodedSays(s, max);
    }
    if n: nat :| n <= max && Says(s, n, v, rest) {
      SaidDecodes(s, n, v, rest, max);
    }
  }

  lemma {:induction false} DecodedSays(s: Bytes, max: nat) returns (n: nat)
    requires DecodeVarint(s, max).Some?
    ensures n <= max && Says(s, n, DecodeVarint(s, max).value.0, DecodeVarint(s, max).value.1)
    decreases max
  {
    if s[0] < 128 {
      n := 1;
      OneByte(s);
    } else {
      n := DecodedSays(s[1..], max - 1);
      ByteMore(s, n);
      n := n + 1;
    }
  }

  lemma {:induction false} SaidDecodes(s: Bytes, n: nat, v: nat, rest: Bytes, max: nat)
    requires n <= max && Says(s, n, v, rest)
    ensures DecodeVarint(s, max) == Some((v, rest))
    decreases max
  {
    hide Base128;
    if n == 1 {
      OneByte(s);
    } else {
      var m, v' := n - 1, Base128(s[1..][..n - 1]);
      ByteMore(s, m);
      assert IsVarint(s, m + 1) && v == s[0] - 128 + 128 * v' && rest == s[1..][m..];
      hide IsVarint;
      SaidDecodes(s[1..], m, v', rest, max - 1);
    }
  }

  lemma OneByte(s: Bytes)
    requires s != [] && s[0] < 128
    ensures IsVarint(s, 1) && Base128(s[..1]) == s[0]
  {
    assert s[..1][1..] == [];
    assert Base128(s[..1]) == s[0] % 128 + 128 * Base128([]);
  }

  lemma ByteMore(s: Bytes, n: nat)
    requires s != [] && s[0] >= 128 && 1 <= n < |s|
    ensures IsVarint(s, n + 1) <==> IsVarint(s[1..], n)
    ensures Base128(s[..n + 1]) == s[0] - 128 + 128 * Base128(s[1..][..n])
    ensures s[n + 1..] == s[1..][n..]
  {
    assert s[..n + 1][1..] == s[1..][..n];
    if IsVarint(s, n + 1) {
      forall i | 0 <= i < n - 1
        ensures s[1..][i] >= 128
      {
        assert s[i + 1] >= 128;
      }
    }
  }

  /** What is written is one varint with that value, as short as can be. */
  lemma {:induction false} EncodeVarintIs(v: nat)
    ensures Says(EncodeVarint(v), |EncodeVarint(v)|, v, [])
    ensures |EncodeVarint(v)| > 1 ==> EncodeVarint(v)[|EncodeVarint(v)| - 1] != 0
    decreases v
  {
    var b := EncodeVarint(v);
    assert b[..|b|] == b;
    if v < 128 {
      OneByte(b);
    } else {
      EncodeVarintIs(v / 128);
      var more := EncodeVarint(v / 128);
      assert b[1..] == more && more[..|more|] == more;
      ByteMore(b, |more|);
    }
  }

  /** Length-prefixed bytes are read exactly if as many follow as the length says. */
  lemma LengthPrefixedIs(s: Bytes, data: Bytes, rest: Bytes)
    ensures DecodeLengthPrefixed(s) == Some((data, rest)) <==>
            exists n: nat, v: nat :: n <= 5 && Says(s, n, v, data + rest) && |data| == v % 0x1_0000_0000
  {
    hide DecodeVarint, Says;
    if DecodeLengthPrefixed(s) == Some((data, rest)) {
      var (v, r) := DecodeVarint(s, 5).value;
      assert r == data + rest;
      DecodeVarintIs(s, 5, v, data + rest);
    }
    if n: nat, v: nat :| n <= 5 && Says(s, n, v, data + rest) && |data| == v % 0x1_0000_0000 {
      DecodeVarintIs(s, 5, v, data + rest);
      assert (data + rest)[..|data|] == data && (data + rest)[|data|..] == rest;
    }
  }

  /** Words are little-endian. */
  lemma Fixed32Is(b: Bytes)
    requires |b| >= 4
    ensures DecodeFixed32(b) == Base256(b[..4])
  {
    var c := b[..4];
    assert c[1..][1..] == c[2..] && c[2..][1..] == c[3..] && c[3..][1..] == [];
    assert Base256(c[3..]) == c[3] && Base256(c[2..]) == c[2] + 256 * Base256(c[3..]);
    assert Base256(c[1..]) == c[1] + 256 * Base256(c[2..]);
  }

  lemma Fixed64Is(b: Bytes)
    requires |b| >= 8
    ensures DecodeFixed64(b) == Base256(b[..8])
  {
    Fixed32Is(b);
    Fixed32Is(b[4..]);
    assert b[4..][..4] == b[4..8];
    Base256Parts(b[..4], b[4..8], 4);
    assert b[..8] == b[..4] + b[4..8];
  }

  function Pow256(n: nat): nat {
    if n == 0 then 1 else 256 * Pow256(n - 1)
  }

  lemma {:induction false} Base256Parts(a: Bytes, b: Bytes, n: nat)
    requires |a| == n <= 4
    ensures Base256(a + b) == Base256(a) + Pow256(n) * Base256(b)
    ensures Pow256(4) == 0x1_0000_0000
    decreases n
  {
    assert Pow256(1) == 256 && Pow256(2) == 256 * 256;
    assert Pow256(4) == 256 * 256 * Pow256(2);
    if a == [] {
      assert a + b == b;
    } else {
      Base256Parts(a[1..], b, n - 1);
      assert (a + b)[1..] == a[1..] + b;
      Regroup(Pow256(n - 1), Base256(b));
    }
  }

  lemma Regroup(p: nat, x: nat)
    ensures 256 * (p * x) == 256 * p * x
  {
  }
}
