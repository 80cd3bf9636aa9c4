/** comparator.cc and the comparator of dbformat.cc: the order of keys as byte strings, and
    the short keys that stand between two others. */
module Comparators {
  import opened DbFormat
  import opened Coding
  import opened Block

  // ---------------------------------------------------------------- bytewise

  /** Slice::compare is negative. */
  predicate Lex(a: Bytes, b: Bytes) {
    b != [] && (a == [] || a[0] < b[0] || (a[0] == b[0] && Lex(a[1..], b[1..])))
  }

  const Bytewise: Less := (a, b) => Lex(a, b)

  lemma {:induction false} LexTransitive(a: Bytes, b: Bytes, c: Bytes)
    ensures !Lex(a, a)
    ensures Lex(a, b) && Lex(b, c) ==> Lex(a, c)
    ensures !Lex(a, b) && !Lex(b, c) ==> !Lex(a, c)
    ensures Lex(a, b) || Lex(b, a) || a == b
    decreases |a| + |b| + |c|
  {
    if a != [] && b != [] && a[0] == b[0] {
      LexTransitive(a[1..], b[1..], if c == [] then [] else c[1..]);
      assert a == [a[0]] + a[1..] && b == [b[0]] + b[1..];
    } else if a != [] {
      LexTransitive(a[1..], [], []);
    }
  }

  lemma BytewiseIsOrder()
    ensures Order(Bytewise)
    ensures forall a, b :: !Bytewise(a, b) && !Bytewise(b, a) ==> a == b
  {
    forall a, b, c
      ensures !Lex(a, a)
      ensures Lex(a, b) && Lex(b, c) ==> Lex(a, c)
      ensures !Lex(a, b) && !Lex(b, c) ==> !Lex(a, c)
      ensures Lex(a, b) || Lex(b, a) || a == b
    {
      LexTransitive(a, b, c);
    }
  }

  /** With a common prefix, the first difference decides. */
  lemma {:induction false} LexAt(a: Bytes, b: Bytes, n: nat)
    requires n <= |a| && n <= |b| && a[..n] == b[..n]
    ensures n < |a| && n < |b| && a[n] != b[n] ==> (Lex(a, b) <==> a[n] < b[n])
    ensures n == |a| ==> (Lex(a, b) <==> n < |b|)
    ensures n == |b| ==> !Lex(a, b)
    decreases n
  {
    if n > 0 {
      assert a[0] == a[..n][0] == b[..n][0] == b[0];
      assert a[1..][..n - 1] == a[..n][1..] == b[..n][1..] == b[1..][..n - 1];
      LexAt(a[1..], b[1..], n - 1);
    }
  }

  /** What any FindShortestSeparator may do: leave `start`, or shorten it to something
      strictly between. */
  ghost predicate Separator(lt: Less, start: Bytes, limit: Bytes, r: Bytes) {
    r == start || (|r| <= |start| && lt(start, r) && lt(r, limit))
  }

  ghost predicate Successor(lt: Less, key: Bytes, r: Bytes) {
    r == key || (|r| <= |key| && lt(key, r))
  }

  /** `s` up to index `n`, with the byte there one higher. */
  ghost predicate Bumped(s: Bytes, n: nat, r: Bytes) {
    n < |s| && |r| == n + 1 && r[..n] == s[..n] && r[n] as int == s[n] as int + 1
  }

  /** The first difference, at `n`, leaves room for a byte strictly between. */
  ghost predicate HasRoom(start: Bytes, limit: Bytes, n: nat) {
    Shares(start, limit, n) && n < |start| && n < |limit| && start[n] as int + 1 < limit[n] as int
  }

  /** Where a shorter prefix ends the two still agree, if a longer one is shared. */
  lemma OneDifference(a: Bytes, b: Bytes, longer: nat, n: nat)
    requires Shares(a, b, longer)
    ensures n < longer ==> a[n] == b[n]
  {
    if n < longer {
      assert a[..longer][n] == b[..longer][n];
    }
  }

  /** BytewiseComparatorImpl::FindShortestSeparator: it shortens to one byte after the common
      prefix exactly if there is room. */
  method FindShortestSeparator(start: Bytes, limit: Bytes) returns (r: Bytes)
    ensures Separator(Bytewise, start, limit, r)
    ensures r != start ==> exists n: nat :: Shares(start, limit, n) && Bumped(start, n, r)
    ensures forall n: nat :: HasRoom(start, limit, n) ==> Bumped(start, n, r)
  {
    var minLength := if |start| < |limit| then |start| else |limit|;
    var diff: nat := 0;
    while diff < minLength && start[diff] == limit[diff]
      invariant diff <= minLength && start[..diff] == limit[..diff]
    {
      diff := diff + 1;
    }
    r := start;
    forall n: nat | HasRoom(start, limit, n)
      ensures n == diff
    {
      OneDifference(start, limit, diff, n);
      OneDifference(start, limit, n, diff);
    }
    if diff < minLength {
      var diffByte: int := start[diff];
      if diffByte < 0xff && diffByte + 1 < limit[diff] {
        r := start[..diff] + [diffByte + 1];
        LexAt(start, r, diff);
        LexAt(r, limit, diff);
        assert Shares(start, limit, diff) && Bumped(start, diff, r);
      }
    }
  }

  /** BytewiseComparatorImpl::FindShortSuccessor. */
  method FindShortSuccessor(key: Bytes) returns (r: Bytes)
    ensures Successor(Bytewise, key, r)
    ensures r == key ==> forall i :: 0 <= i < |key| ==> key[i] == 0xff
    ensures r != key ==> exists n: nat :: Bumped(key, n, r) && forall i :: 0 <= i < n ==> key[i] == 0xff
  {
    for i := 0 to |key|
      invariant forall j :: 0 <= j < i ==> key[j] == 0xff
    {
      var byte: int := key[i];
      if byte != 0xff {
        r := key[..i] + [byte + 1];
        LexAt(key, r, i);
        assert Bumped(key, i, r);
        return;
      }
    }
    r := key;
  }

  // ---------------------------------------------------------------- internal keys

  const kTypeDeletion: nat := 0
  const kTypeValue: nat := 1
  const kValueTypeForSeek: nat := kTypeValue

  function PackSequenceAndType(sequence: nat, t: nat): (r: nat)
    requires sequence <= kMaxSequenceNumber && t <= kValueTypeForSeek
    ensures r < 0x1_0000_0000_0000_0000
  {
    sequence * 256 + t
  }

  /** ExtractUserKey; the source demands at least eight bytes. */
  function UserOf(k: Bytes): Bytes {
    if |k| < 8 then [] else k[..|k| - 8]
  }

  function TagOf(k: Bytes): nat {
    if |k| < 8 then 0 else DecodeFixed64(k[|k| - 8..])
  }

  function InternalBytes(user: Bytes, tag: nat): Bytes
    requires tag < 0x1_0000_0000_0000_0000
  {
    user + EncodeFixed64(tag)
  }

  lemma InternalParts(user: Bytes, tag: nat)
    requires tag < 0x1_0000_0000_0000_0000
    ensures UserOf(InternalBytes(user, tag)) == user && TagOf(InternalBytes(user, tag)) == tag
  {
    hide EncodeFixed64, DecodeFixed64;
    var k := InternalBytes(user, tag);
    assert k[|k| - 8..] == EncodeFixed64(tag) + [];
    Fixed64RoundTrip(tag, []);
  }

  predicate InternalLess(lt: Less, a: Bytes, b: Bytes) {
    lt(UserOf(a), UserOf(b)) || (!lt(UserOf(b), UserOf(a)) && TagOf(a) > TagOf(b))
  }

  /** InternalKeyComparator over a user comparator. */
  function Internal(lt: Less): Less {
    (a, b) => InternalLess(lt, a, b)
  }

  lemma InternalIsOrder(lt: Less)
    requires Order(lt)
    ensures Order(Internal(lt))
  {
    hide UserOf, TagOf;
    forall a, b, c
      ensures !InternalLess(lt, a, a)
      ensures InternalLess(lt, a, b) && InternalLess(lt, b, c) ==> InternalLess(lt, a, c)
      ensures !InternalLess(lt, a, b) && !InternalLess(lt, b, c) ==> !InternalLess(lt, a, c)
    {
      OrderOf(lt, UserOf(a), UserOf(b), UserOf(c));
    }
  }

  /** The laws of an order for three keys. */
  lemma OrderOf(lt: Less, a: Bytes, b: Bytes, c: Bytes)
    requires Order(lt)
    ensures !lt(a, a)
    ensures lt(a, b) ==> !lt(b, a)
    ensures lt(b, c) ==> !lt(c, b)
    ensures lt(a, b) && lt(b, c) ==> lt(a, c)
    ensures lt(a, b) && !lt(c, b) ==> lt(a, c)
    ensures !lt(b, a) && lt(b, c) ==> lt(a, c)
    ensures !lt(a, b) && !lt(b, c) ==> !lt(a, c)
  {
  }

  const SEEK_TAG: nat := PackSequenceAndType(kMaxSequenceNumber, kValueTypeForSeek)

  /** What InternalKeyComparator::FindShortestSeparator gives: the key itself, or a key whose
      user key is strictly between the two. */
  ghost predicate InternalSeparator(start: Bytes, limit: Bytes, r: Bytes) {
    r == start || (|r| >= 8 && Lex(UserOf(start), UserOf(r)) && Lex(UserOf(r), UserOf(limit)))
  }

  ghost predicate InternalSuccessor(key: Bytes, r: Bytes) {
    r == key || (|r| >= 8 && Lex(UserOf(key), UserOf(r)))
  }

  /** InternalKeyComparator::FindShortestSeparator over the bytewise comparator. */
  method FindInternalSeparator(start: Bytes, limit: Bytes) returns (r: Bytes)
    requires |start| >= 8 && |limit| >= 8
    ensures InternalSeparator(start, limit, r) && |r| <= |start|
  {
    hide Lex;
    var userStart, userLimit := UserOf(start), UserOf(limit);
    var tmp := FindShortestSeparator(userStart, userLimit);
    r := start;
    if |tmp| < |userStart| && Lex(userStart, tmp) {
      // The user key has become shorter, but larger: the earliest number goes with it.
      InternalParts(tmp, SEEK_TAG);
      r := tmp + EncodeFixed64(SEEK_TAG);
    }
  }

  method FindInternalSuccessor(key: Bytes) returns (r: Bytes)
    requires |key| >= 8
    ensures InternalSuccessor(key, r) && |r| <= |key|
  {
    hide Lex;
    var userKey := UserOf(key);
    var tmp := FindShortSuccessor(userKey);
    r := key;
    if |tmp| < |userKey| && Lex(userKey, tmp) {
      InternalParts(tmp, SEEK_TAG);
      r := tmp + EncodeFixed64(SEEK_TAG);
    }
  }

  /** A separator is at or after `start` and, if `start` is, before `limit`. */
  lemma SeparatorBetween(start: Bytes, limit: Bytes, r: Bytes)
    requires InternalSeparator(start, limit, r)
    ensures !InternalLess(Bytewise, r, start)
    ensures InternalLess(Bytewise, start, limit) ==> InternalLess(Bytewise, r, limit)
  {
    BytewiseIsOrder();
    OrderOf(Bytewise, UserOf(start), UserOf(r), UserOf(limit));
  }

  lemma SuccessorAfter(key: Bytes, r: Bytes)
    requires InternalSuccessor(key, r)
    ensures !InternalLess(Bytewise, r, key)
  {
    BytewiseIsOrder();
    OrderOf(Bytewise, UserOf(key), UserOf(r), UserOf(key));
  }
}
