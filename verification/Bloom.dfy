/** bloom.cc: a filter never denies a key it was made from, and sets no bit that no key
    asks for. */
module Bloom {
  import opened DbFormat
  import opened Coding
  import opened Bits

  /** Any hash will do. */
  type Hash = Bytes -> Word

  // ---------------------------------------------------------------- bits of a byte array

  predicate IsSet(a: Bytes, pos: nat)
    requires pos < 8 * |a|
  {
    Bit(a[pos / 8], pos % 8)
  }

  function SetAt(a: Bytes, pos: nat): (r: Bytes)
    requires pos < 8 * |a|
    ensures |r| == |a|
  {
    ByteBits(a[pos / 8], pos % 8);
    a[pos / 8 := SetBit(a[pos / 8], pos % 8)]
  }

  /** Setting a position sets that one and no other. */
  lemma SetAtSets(a: Bytes, pos: nat, x: nat)
    requires pos < 8 * |a| && x < 8 * |a|
    ensures IsSet(SetAt(a, pos), x) <==> IsSet(a, x) || x == pos
  {
    hide Bit, SetBit;
    SetBitBits(a[pos / 8], pos % 8, x % 8);
  }

  // ---------------------------------------------------------------- probes

  function Delta(h: Word): Word {
    // Rotate right 17 bits.
    h / 0x2_0000 + h % 0x2_0000 * 0x8000
  }

  function NextHash(h: Word, delta: Word): Word {
    (h + delta) % 0x1_0000_0000
  }

  /** The hash after `j` steps. */
  function HashAt(h: Word, delta: Word, j: nat): Word
    decreases j
  {
    if j == 0 then h else HashAt(NextHash(h, delta), delta, j - 1)
  }

  /** Position `pos` of `n` is one of the first `k` probes. */
  ghost predicate Probed(h: Word, delta: Word, k: nat, n: nat, pos: nat)
    requires n > 0
  {
    exists j: nat :: j < k && HashAt(h, delta, j) % n == pos
  }

  lemma ProbedStep(h: Word, delta: Word, k: nat, n: nat, pos: nat)
    requires n > 0 && k > 0
    ensures Probed(h, delta, k, n, pos) <==> h % n == pos || Probed(NextHash(h, delta), delta, k - 1, n, pos)
  {
    if Probed(h, delta, k, n, pos) {
      var j: nat :| j < k && HashAt(h, delta, j) % n == pos;
      if j > 0 {
        assert HashAt(NextHash(h, delta), delta, j - 1) % n == pos;
      }
    }
    if h % n == pos {
      assert HashAt(h, delta, 0) % n == pos;
    }
    if Probed(NextHash(h, delta), delta, k - 1, n, pos) {
      var j: nat :| j < k - 1 && HashAt(NextHash(h, delta), delta, j) % n == pos;
      assert HashAt(h, delta, j + 1) % n == pos;
    }
  }

  // ---------------------------------------------------------------- filters

  /** BloomFilterPolicy's number of probes. */
  function Probes(bitsPerKey: nat): (k: nat)
    ensures 1 <= k <= 30
  {
    var k := (bitsPerKey as real * 0.69).Floor;
    if k < 1 then 1 else if k > 30 then 30 else k
  }

  function BytesFor(n: nat, bitsPerKey: nat): (r: nat)
    ensures r >= 8
  {
    var bits := n * bitsPerKey;
    ((if bits < 64 then 64 else bits) + 7) / 8
  }

  /** Every key may match a filter whose positions it probes are all set. */
  predicate AllSet(a: Bytes, h: Word, delta: Word, k: nat)
    requires a != []
    decreases k
  {
    k == 0 || (IsSet(a, h % (8 * |a|)) && AllSet(a, NextHash(h, delta), delta, k - 1))
  }

  /** What KeyMayMatch answers. */
  predicate MayMatch(hash: Hash, key: Bytes, filter: Bytes) {
    var len := |filter|;
    len >= 2 && (filter[len - 1] > 30 || AllSet(filter[..len - 1], hash(key), Delta(hash(key)), filter[len - 1]))
  }

  /** `a` holds exactly the probes of the keys, `k` for each. */
  ghost predicate HoldsKeys(hash: Hash, keys: seq<Bytes>, k: nat, a: Bytes) {
    a != [] && forall pos :: 0 <= pos < 8 * |a| ==> (IsSet(a, pos) <==> KeysProbe(hash, keys, k, 8 * |a|, pos))
  }

  ghost predicate KeysProbe(hash: Hash, keys: seq<Bytes>, k: nat, n: nat, pos: nat)
    requires n > 0
  {
    exists i :: 0 <= i < |keys| && Probed(hash(keys[i]), Delta(hash(keys[i])), k, n, pos)
  }

  /** The filter CreateFilter makes of the keys: as large as it should be, with exactly
      their probes set, then the number of probes. */
  ghost predicate IsFilter(hash: Hash, bitsPerKey: nat, keys: seq<Bytes>, filter: Bytes) {
    && |filter| == BytesFor(|keys|, bitsPerKey) + 1
    && filter[|filter| - 1] == Probes(bitsPerKey)
    && HoldsKeys(hash, keys, Probes(bitsPerKey), filter[..|filter| - 1])
  }

  lemma {:induction false} AllProbesSet(a: Bytes, h: Word, delta: Word, k: nat)
    requires a != []
    ensures AllSet(a, h, delta, k) <==> forall pos: nat :: pos < 8 * |a| && Probed(h, delta, k, 8 * |a|, pos) ==> IsSet(a, pos)
    decreases k
  {
    if k > 0 {
      AllProbesSet(a, NextHash(h, delta), delta, k - 1);
      forall pos: nat | pos < 8 * |a|
        ensures Probed(h, delta, k, 8 * |a|, pos) <==> h % (8 * |a|) == pos || Probed(NextHash(h, delta), delta, k - 1, 8 * |a|, pos)
      {
        ProbedStep(h, delta, k, 8 * |a|, pos);
      }
    }
  }

  /** No false negatives, whatever the hash. */
  lemma NoFalseNegatives(hash: Hash, bitsPerKey: nat, keys: seq<Bytes>, filter: Bytes, key: Bytes)
    requires IsFilter(hash, bitsPerKey, keys, filter) && key in keys
    ensures MayMatch(hash, key, filter)
  {
    var a, k := filter[..|filter| - 1], Probes(bitsPerKey);
    var i :| 0 <= i < |keys| && keys[i] == key;
    AllProbesSet(a, hash(key), Delta(hash(key)), k);
  }

  // ---------------------------------------------------------------- in numbers

  /** Double hashing: the hash and multiples of its rotation, in 32 bits. */
  lemma {:induction false} HashAtIs(h: Word, delta: Word, j: nat)
    ensures HashAt(h, delta, j) == (h + j * delta) % 0x1_0000_0000
    decreases j
  {
    if j > 0 {
      HashAtIs(NextHash(h, delta), delta, j - 1);
      ModAdd(h + delta, (j - 1) * delta, 0x1_0000_0000);
      assert h + delta + (j - 1) * delta == h + j * delta;
    }
  }

  /** The bit that probe `j` of a key with hash `h` looks at, out of `n`. */
  function ProbeAt(h: Word, j: nat, n: nat): nat
    requires n > 0
  {
    (h + j * (h / 0x2_0000 + h % 0x2_0000 * 0x8000)) % 0x1_0000_0000 % n
  }

  predicate BitOf(a: Bytes, pos: nat)
    requires pos < 8 * |a|
  {
    a[pos / 8] / TwoTo(pos % 8) % 2 == 1
  }

  lemma ProbeIs(h: Word, j: nat, n: nat)
    requires n > 0
    ensures HashAt(h, Delta(h), j) % n == ProbeAt(h, j, n)
  {
    var delta: nat := Delta(h);
    assert ProbeAt(h, j, n) == (h + j * delta) % 0x1_0000_0000 % n;
    hide Delta, ProbeAt, HashAt;
    HashAtIs(h, delta, j);
  }

  lemma AllSetIff(a: Bytes, h: Word, k: nat)
    requires a != []
    ensures AllSet(a, h, Delta(h), k) <==> forall j: nat :: j < k ==> BitOf(a, ProbeAt(h, j, 8 * |a|))
  {
    hide Delta, HashAt, ProbeAt, IsSet, BitOf, AllSet;
    var n, delta := 8 * |a|, Delta(h);
    AllProbesSet(a, h, delta, k);
    forall j: nat | j < k
      ensures Probed(h, delta, k, n, ProbeAt(h, j, n))
    {
      ProbeIs(h, j, n);
    }
    forall pos: nat | pos < n
      ensures IsSet(a, pos) <==> BitOf(a, pos)
    {
      SameBit(a, pos);
    }
    forall pos: nat | pos < n && Probed(h, delta, k, n, pos)
      ensures exists j: nat :: j < k && ProbeAt(h, j, n) == pos
    {
      var j: nat :| j < k && HashAt(h, delta, j) % n == pos;
      ProbeIs(h, j, n);
    }
  }

  /** A key matches exactly if the filter is long enough and all the bits are set that as
      many probes as its last byte says look at; or if that byte is above 30. */
  lemma MatchesIff(hash: Hash, key: Bytes, filter: Bytes)
    ensures MayMatch(hash, key, filter) <==>
            && |filter| >= 2
            && var last := |filter| - 1;
               filter[last] > 30 || forall j: nat :: j < filter[last] ==> BitOf(filter[..last], ProbeAt(hash(key), j, 8 * last))
  {
    hide ProbeAt, BitOf, AllSet, Delta;
    if |filter| >= 2 {
      AllSetIff(filter[..|filter| - 1], hash(key), filter[|filter| - 1]);
    }
  }

  lemma SameBit(a: Bytes, pos: nat)
    requires pos < 8 * |a|
    ensures IsSet(a, pos) <==> BitOf(a, pos)
  {
  }

  /** In particular a key is denied as soon as one of its bits is clear. */
  lemma ClearBitDenies(hash: Hash, key: Bytes, filter: Bytes, j: nat)
    requires |filter| >= 2 && j < filter[|filter| - 1] <= 30
    requires !BitOf(filter[..|filter| - 1], ProbeAt(hash(key), j, 8 * (|filter| - 1)))
    ensures !MayMatch(hash, key, filter)
  {
    MatchesIff(hash, key, filter);
  }

  /** The number of probes is 0.69 times the bits per key, rounded down, from 1 to 30. */
  lemma ProbesIs(bitsPerKey: nat)
    ensures var k := Probes(bitsPerKey);
            if 69 * bitsPerKey < 100 then k == 1
            else if 69 * bitsPerKey >= 3000 then k == 30
            else 100 * k <= 69 * bitsPerKey < 100 * (k + 1)
  {
    var x := bitsPerKey as real * 0.69;
    assert x == (69 * bitsPerKey) as real / 100.0;
    assert x.Floor as real <= x < x.Floor as real + 1.0;
  }

  /** A filter has no more bytes than its bits need, but eight at least. */
  lemma BytesForIs(n: nat, bitsPerKey: nat)
    ensures var r := BytesFor(n, bitsPerKey);
            8 * r >= n * bitsPerKey && (r == 8 || 8 * (r - 1) < n * bitsPerKey)
  {
    hide TwoTo;
    var bits := n * bitsPerKey;
    assert BytesFor(n, bitsPerKey) == ((if bits < 64 then 64 else bits) + 7) / 8;
  }

  /** CreateFilter appends the filter of the keys to `dst`. */
  method CreateFilter(hash: Hash, bitsPerKey: nat, keys: seq<Bytes>, dst: Bytes) returns (r: Bytes)
    ensures |dst| <= |r| && r[..|dst|] == dst && IsFilter(hash, bitsPerKey, keys, r[|dst|..])
  {
    hide IsSet, Probed, HashAt, Delta, NextHash;
    var k := Probes(bitsPerKey);
    var bits := |keys| * bitsPerKey;
    if bits < 64 {
      bits := 64;
    }
    var bytes := (bits + 7) / 8;
    bits := bytes * 8;
    var bitmap := new Byte[bytes](_ => 0);
    NothingSet(hash, k, bitmap[..]);
    for i := 0 to |keys|
      invariant HoldsKeys(hash, keys[..i], k, bitmap[..])
    {
      ghost var before := bitmap[..];
      var h: Word := hash(keys[i]);
      var delta := Delta(h);
      AddProbes(bitmap, h, delta, k);
      assert keys[..i + 1] == keys[..i] + [keys[i]];
      OneKeyMore(hash, keys[..i], keys[i], k, before, bitmap[..]);
    }
    assert keys[..|keys|] == keys;
    r := dst + bitmap[..] + [k];
    assert r[|dst|..] == bitmap[..] + [k];
    assert (bitmap[..] + [k])[..bytes] == bitmap[..];
  }

  lemma NothingSet(hash: Hash, k: nat, a: Bytes)
    requires a != [] && forall i :: 0 <= i < |a| ==> a[i] == 0
    ensures HoldsKeys(hash, [], k, a)
  {
    forall pos | 0 <= pos < 8 * |a|
      ensures !IsSet(a, pos)
    {
      NoBit(pos % 8);
    }
  }

  /** The inner loop: the probes of one hash are set, and nothing else changes. */
  method AddProbes(bitmap: array<Byte>, hash: Word, delta: Word, k: nat)
    requires bitmap.Length > 0
    modifies bitmap
    ensures Added(old(bitmap[..]), bitmap[..], hash, delta, k)
  {
    hide IsSet, Probed, HashAt, NextHash;
    var h: Word, bits := hash, bitmap.Length * 8;
    ghost var first := bitmap[..];
    for j := 0 to k
      invariant forall a: Bytes :: Added(bitmap[..], a, h, delta, k - j) ==> Added(first, a, hash, delta, k)
    {
      ghost var before := bitmap[..];
      var bitpos := h % bits;
      ByteBits(bitmap[bitpos / 8], bitpos % 8);
      bitmap[bitpos / 8] := SetBit(bitmap[bitpos / 8], bitpos % 8);
      assert bitmap[..] == SetAt(before, bitpos);
      forall a: Bytes | Added(bitmap[..], a, NextHash(h, delta), delta, k - j - 1)
        ensures Added(first, a, hash, delta, k)
      {
        AddedStep(before, bitmap[..], a, h, delta, k - j);
      }
      h := NextHash(h, delta);
    }
    NoneAdded(bitmap[..], h, delta);
  }

  ghost predicate Added(a: Bytes, b: Bytes, h: Word, delta: Word, k: nat) {
    && |a| == |b| > 0
    && forall pos :: 0 <= pos < 8 * |a| ==> (IsSet(b, pos) <==> IsSet(a, pos) || Probed(h, delta, k, 8 * |a|, pos))
  }

  lemma NoneAdded(a: Bytes, h: Word, delta: Word)
    requires a != []
    ensures Added(a, a, h, delta, 0)
  {
  }

  lemma AddedStep(a: Bytes, b: Bytes, c: Bytes, h: Word, delta: Word, k: nat)
    requires a != [] && k > 0 && b == SetAt(a, h % (8 * |a|)) && Added(b, c, NextHash(h, delta), delta, k - 1)
    ensures Added(a, c, h, delta, k)
  {
    hide IsSet, Probed, SetAt, NextHash;
    forall pos: nat | pos < 8 * |a|
      ensures IsSet(c, pos) <==> IsSet(a, pos) || Probed(h, delta, k, 8 * |a|, pos)
    {
      SetAtSets(a, h % (8 * |a|), pos);
      ProbedStep(h, delta, k, 8 * |a|, pos);
    }
  }

  lemma OneKeyMore(hash: Hash, keys: seq<Bytes>, key: Bytes, k: nat, a: Bytes, b: Bytes)
    requires HoldsKeys(hash, keys, k, a) && Added(a, b, hash(key), Delta(hash(key)), k)
    ensures HoldsKeys(hash, keys + [key], k, b)
  {
    hide IsSet, Probed;
    forall pos: nat | pos < 8 * |b|
      ensures IsSet(b, pos) <==> KeysProbe(hash, keys + [key], k, 8 * |b|, pos)
    {
      OneProbesMore(hash, keys, key, k, 8 * |b|, pos);
    }
  }

  lemma OneProbesMore(hash: Hash, keys: seq<Bytes>, key: Bytes, k: nat, n: nat, pos: nat)
    requires n > 0
    ensures KeysProbe(hash, keys + [key], k, n, pos) <==> KeysProbe(hash, keys, k, n, pos) || Probed(hash(key), Delta(hash(key)), k, n, pos)
  {
    hide Probed;
    var all := keys + [key];
    if KeysProbe(hash, keys, k, n, pos) {
      var i :| 0 <= i < |keys| && Probed(hash(keys[i]), Delta(hash(keys[i])), k, n, pos);
      assert all[i] == keys[i];
    }
    assert all[|keys|] == key;
  }

  /** KeyMayMatch. */
  method KeyMayMatch(hash: Hash, key: Bytes, filter: Bytes) returns (r: bool)
    ensures r == MayMatch(hash, key, filter)
  {
    hide IsSet, Delta, NextHash;
    var len := |filter|;
    if len < 2 {
      return false;
    }
    var bitmap := filter[..len - 1];
    var bits := (len - 1) * 8;
    var k: nat := filter[len - 1];
    if k > 30 {
      // Reserved for new encodings: consider it a match.
      return true;
    }
    var h: Word := hash(key);
    var delta := Delta(h);
    for j := 0 to k
      invariant AllSet(bitmap, hash(key), delta, k) == AllSet(bitmap, h, delta, k - j)
    {
      var bitpos := h % bits;
      if !IsSet(bitmap, bitpos) {
        return false;
      }
      h := NextHash(h, delta);
    }
    return true;
  }
}
