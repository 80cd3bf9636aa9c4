/** WriteBatch: operations kept in the form in which they are logged. */
module WriteBatch {
  import opened DbFormat
  import opened Coding

  datatype WriteOp = Put(key: Bytes, value: Bytes) | Delete(key: Bytes)

  const kHeader: nat := 12
  const kTypeDeletion: Byte := 0
  const kTypeValue: Byte := 1

  // ---------------------------------------------------------------- format

  function EncodeOp(op: WriteOp): (r: Bytes)
    ensures r != []
  {
    match op
    case Put(key, value) => [kTypeValue] + LengthPrefixed(key) + LengthPrefixed(value)
    case Delete(key) => [kTypeDeletion] + LengthPrefixed(key)
  }

  function EncodeOps(ops: seq<WriteOp>): Bytes {
    if ops == [] then [] else EncodeOp(ops[0]) + EncodeOps(ops[1..])
  }

  function Rep(sequence: Word64, count: Word, ops: seq<WriteOp>): (r: Bytes)
    ensures |r| == kHeader + |EncodeOps(ops)|
  {
    EncodeFixed64(sequence) + EncodeFixed32(count) + EncodeOps(ops)
  }

  /** Lengths fit the 32-bit length prefixes. */
  predicate OpFits(op: WriteOp) {
    |op.key| <= 0xffff_ffff && (op.Put? ==> |op.value| <= 0xffff_ffff)
  }

  ghost predicate Fit(ops: seq<WriteOp>) {
    |ops| <= 0xffff_ffff && forall i :: 0 <= i < |ops| ==> OpFits(ops[i])
  }

  lemma {:induction false} EncodeOpsConcat(a: seq<WriteOp>, b: seq<WriteOp>)
    ensures EncodeOps(a + b) == EncodeOps(a) + EncodeOps(b)
  {
    hide EncodeOp;
    if a == [] {
      assert a + b == b;
    } else {
      EncodeOpsConcat(a[1..], b);
      assert (a + b)[1..] == a[1..] + b;
      assert (a + b)[0] == a[0];
      assert EncodeOps(a + b) == EncodeOp(a[0]) + (EncodeOps(a[1..]) + EncodeOps(b));
    }
  }

  // ---------------------------------------------------------------- reading

  /** The first operation of `s` and the rest; None if there is none. */
  function DecodeOp(s: Bytes): (r: Option<(WriteOp, Bytes)>)
    requires s != []
    ensures r.Some? ==> |r.value.1| < |s|
  {
    if s[0] == kTypeValue then
      match DecodeLengthPrefixed(s[1..])
      case None => None
      case Some((key, rest)) =>
        (match DecodeLengthPrefixed(rest)
         case None => None
         case Some((value, rest')) => Some((Put(key, value), rest')))
    else if s[0] == kTypeDeletion then
      match DecodeLengthPrefixed(s[1..])
      case None => None
      case Some((key, rest)) => Some((Delete(key), rest))
    else None
  }

  /** The operations handed to the handler, and whether the whole of `s` was read. */
  function DecodeOps(s: Bytes): (seq<WriteOp>, bool)
    decreases |s|
  {
    if s == [] then ([], true)
    else
      match DecodeOp(s)
      case None => ([], false)
      case Some((op, rest)) =>
        var (ops, ok) := DecodeOps(rest);
        ([op] + ops, ok)
  }

  lemma OpRoundTrip(op: WriteOp, rest: Bytes)
    requires OpFits(op)
    ensures DecodeOp(EncodeOp(op) + rest) == Some((op, rest))
  {
    hide DecodeLengthPrefixed, LengthPrefixed;
    var s := EncodeOp(op) + rest;
    match op
    case Put(key, value) =>
      assert s[1..] == LengthPrefixed(key) + (LengthPrefixed(value) + rest);
      LengthPrefixedRoundTrip(key, LengthPrefixed(value) + rest);
      LengthPrefixedRoundTrip(value, rest);
    case Delete(key) =>
      assert s[1..] == LengthPrefixed(key) + rest;
      LengthPrefixedRoundTrip(key, rest);
  }

  lemma {:induction false} OpsRoundTrip(ops: seq<WriteOp>)
    requires forall i :: 0 <= i < |ops| ==> OpFits(ops[i])
    ensures DecodeOps(EncodeOps(ops)) == (ops, true)
  {
    hide DecodeOp, EncodeOp;
    if ops != [] {
      OpRoundTrip(ops[0], EncodeOps(ops[1..]));
      OpsRoundTrip(ops[1..]);
      assert ops == [ops[0]] + ops[1..];
    }
  }

  lemma OpLocal(s: Bytes, b: Bytes)
    requires s != [] && DecodeOp(s).Some?
    ensures var (op, rest) := DecodeOp(s).value; DecodeOp(s + b) == Some((op, rest + b))
  {
    hide DecodeLengthPrefixed;
    assert (s + b)[1..] == s[1..] + b;
    LengthPrefixedLocal(s[1..], b);
    if s[0] == kTypeValue {
      LengthPrefixedLocal(DecodeLengthPrefixed(s[1..]).value.1, b);
    }
  }

  /** Of an operation that is cut short nothing is read. */
  lemma CutOp(op: WriteOp, k: nat)
    requires OpFits(op) && 0 < k < |EncodeOp(op)|
    ensures DecodeOps(EncodeOp(op)[..k]) == ([], false)
  {
    hide DecodeOp;
    var s, b := EncodeOp(op)[..k], EncodeOp(op)[k..];
    assert s + b == EncodeOp(op) + [];
    OpRoundTrip(op, []);
    if DecodeOp(s).Some? {
      OpLocal(s, b);
    }
  }

  lemma {:induction false} OpsThen(ops: seq<WriteOp>, rest: Bytes)
    requires forall i :: 0 <= i < |ops| ==> OpFits(ops[i])
    ensures DecodeOps(EncodeOps(ops) + rest) == (ops + DecodeOps(rest).0, DecodeOps(rest).1)
  {
    hide DecodeOp, EncodeOp;
    if ops == [] {
      assert EncodeOps(ops) + rest == rest;
      assert ops + DecodeOps(rest).0 == DecodeOps(rest).0;
    } else {
      var more := EncodeOps(ops[1..]) + rest;
      assert EncodeOps(ops) + rest == EncodeOp(ops[0]) + more;
      OpRoundTrip(ops[0], more);
      OpsThen(ops[1..], rest);
      assert [ops[0]] + (ops[1..] + DecodeOps(rest).0) == ops + DecodeOps(rest).0;
    }
  }

  /** How many operations are whole in the first `k` bytes. */
  function WholeOps(ops: seq<WriteOp>, k: nat): (n: nat)
    ensures n <= |ops| && |EncodeOps(ops[..n])| <= k
    ensures n < |ops| ==> k < |EncodeOps(ops[..n])| + |EncodeOp(ops[n])|
  {
    if ops == [] || k < |EncodeOp(ops[0])| then 0
    else
      var n := WholeOps(ops[1..], k - |EncodeOp(ops[0])|);
      assert ops[..n + 1][1..] == ops[1..][..n];
      n + 1
  }

  /** A batch cut at any byte after the header: the handler gets the operations that are
      whole, and the status is never Ok. */
  lemma CutBatch(sequence: Word64, ops: seq<WriteOp>, k: nat)
    requires Fit(ops) && kHeader <= k < |Rep(sequence, |ops|, ops)|
    ensures var rep := Rep(sequence, |ops|, ops)[..k]; var (handled, ok) := DecodeOps(rep[kHeader..]);
            && handled == ops[..WholeOps(ops, k - kHeader)]
            && !(ok && |handled| == DecodeFixed32(rep[8..]))
  {
    hide DecodeOp, DecodeFixed32, EncodeOp, EncodeFixed32, EncodeFixed64;
    var n, rep := WholeOps(ops, k - kHeader), Rep(sequence, |ops|, ops);
    HeaderReads(sequence, |ops|, ops);
    assert DecodeFixed32(rep[..k][8..]) == |ops| by {
      Fixed32RoundTrip(|ops|, EncodeOps(ops)[..k - kHeader]);
      assert rep[..k][8..] == EncodeFixed32(|ops|) + EncodeOps(ops)[..k - kHeader];
    }
    assert ops == ops[..n] + ops[n..];
    EncodeOpsConcat(ops[..n], ops[n..]);
    var whole := EncodeOps(ops[..n]);
    assert n < |ops|;
    var j := k - kHeader - |whole|;
    assert EncodeOps(ops[n..]) == EncodeOp(ops[n]) + EncodeOps(ops[n..][1..]);
    assert rep[..k][kHeader..] == whole + EncodeOp(ops[n])[..j];
    OpsThen(ops[..n], EncodeOp(ops[n])[..j]);
    if j > 0 {
      CutOp(ops[n], j);
    }
  }

  lemma HeaderReads(sequence: Word64, count: Word, ops: seq<WriteOp>)
    ensures var rep := Rep(sequence, count, ops);
            && DecodeFixed64(rep) == sequence
            && DecodeFixed32(rep[8..]) == count
            && rep[kHeader..] == EncodeOps(ops)
  {
    hide EncodeFixed64, EncodeFixed32, DecodeFixed64, DecodeFixed32, EncodeOps;
    var rep := Rep(sequence, count, ops);
    Fixed64RoundTrip(sequence, EncodeFixed32(count) + EncodeOps(ops));
    Fixed32RoundTrip(count, EncodeOps(ops));
    assert rep == EncodeFixed64(sequence) + (EncodeFixed32(count) + EncodeOps(ops));
    assert rep[8..] == EncodeFixed32(count) + EncodeOps(ops);
  }

  // ---------------------------------------------------------------- the batch

  class Batch {
    var rep: Bytes
    ghost var sequence: Word64
    ghost var ops: seq<WriteOp>

    ghost predicate Valid()
      reads this
    {
      Fit(ops) && rep == Rep(sequence, |ops|, ops)
    }

    constructor ()
      ensures Valid() && ops == [] && sequence == 0
    {
      rep := Rep(0, 0, []);
      sequence, ops := 0, [];
    }

    method Clear()
      modifies this
      ensures Valid() && ops == [] && sequence == 0
    {
      rep := [0, 0, 0, 0, 0, 0, 0, 0, 0, 0, 0, 0];
      sequence, ops := 0, [];
      assert rep == Rep(0, 0, []);
    }

    method Count() returns (n: nat)
      requires Valid()
      ensures n == |ops|
    {
      HeaderReads(sequence, |ops|, ops);
      n := DecodeFixed32(rep[8..]);
    }

    method Sequence() returns (n: nat)
      requires Valid()
      ensures n == sequence
    {
      HeaderReads(sequence, |ops|, ops);
      n := DecodeFixed64(rep);
    }

    method SetSequence(n: Word64)
      requires Valid()
      modifies this
      ensures Valid() && ops == old(ops) && sequence == n
    {
      hide EncodeOps, EncodeFixed32, EncodeFixed64, DecodeFixed32, DecodeFixed64;
      HeaderReads(sequence, |ops|, ops);
      rep := EncodeFixed64(n) + rep[8..];
      sequence := n;
      assert rep == Rep(n, |ops|, ops);
    }

    method Put(key: Bytes, value: Bytes)
      requires Valid() && |ops| < 0xffff_ffff && OpFits(WriteOp.Put(key, value))
      modifies this
      ensures Valid() && ops == old(ops) + [WriteOp.Put(key, value)] && sequence == old(sequence)
    {
      hide Rep, LengthPrefixed, EncodeOps;
      var n := Count();
      SetCount(n + 1);
      Extend(WriteOp.Put(key, value));
      rep := rep + [kTypeValue];
      rep := rep + LengthPrefixed(key);
      rep := rep + LengthPrefixed(value);
      ops := ops + [WriteOp.Put(key, value)];
    }

    method Delete(key: Bytes)
      requires Valid() && |ops| < 0xffff_ffff && OpFits(WriteOp.Delete(key))
      modifies this
      ensures Valid() && ops == old(ops) + [WriteOp.Delete(key)] && sequence == old(sequence)
    {
      hide Rep, LengthPrefixed, EncodeOps;
      var n := Count();
      SetCount(n + 1);
      Extend(WriteOp.Delete(key));
      rep := rep + [kTypeDeletion];
      rep := rep + LengthPrefixed(key);
      ops := ops + [WriteOp.Delete(key)];
    }

    /** Only the four count bytes change. */
    method SetCount(n: Word)
      requires Valid()
      modifies this`rep
      ensures rep == Rep(sequence, n, ops)
    {
      hide EncodeOps, EncodeFixed32, EncodeFixed64, DecodeFixed32, DecodeFixed64;
      HeaderReads(sequence, |ops|, ops);
      rep := rep[..8] + EncodeFixed32(n) + rep[kHeader..];
    }

    /** The bytes that one more operation adds. */
    lemma Extend(op: WriteOp)
      ensures forall n: Word :: Rep(sequence, n, ops + [op]) == Rep(sequence, n, ops) + EncodeOp(op)
    {
      EncodeOpsConcat(ops, [op]);
      assert EncodeOps([op]) == EncodeOp(op) + EncodeOps([]);
      assert EncodeOps([op]) == EncodeOp(op);
    }

    /** Appending a batch appends its operations. */
    method Append(source: Batch)
      requires Valid() && source.Valid() && source != this && |ops| + |source.ops| <= 0xffff_ffff
      modifies this
      ensures Valid() && ops == old(ops) + source.ops && sequence == old(sequence)
    {
      hide EncodeOps, EncodeFixed32, EncodeFixed64, DecodeFixed32, DecodeFixed64;
      var n := Count();
      var m := source.Count();
      SetCount(n + m);
      HeaderReads(source.sequence, |source.ops|, source.ops);
      EncodeOpsConcat(ops, source.ops);
      rep := rep + source.rep[kHeader..];
      ops := ops + source.ops;
    }
  }

  datatype Status = Ok | Corruption

  /** Iterate over the bytes of any batch, as read back from a log: the handler gets the
      operations in order, and the status is Ok exactly if every byte after the header
      belongs to one of them and the count in the header is right. */
  method Iterate(rep: Bytes) returns (handled: seq<WriteOp>, status: Status)
    ensures |rep| < kHeader ==> handled == [] && status == Corruption
    ensures |rep| >= kHeader ==>
              var (ops, ok) := DecodeOps(rep[kHeader..]);
              && handled == ops
              && (status == Ok <==> ok && |ops| == DecodeFixed32(rep[8..]))
  {
    hide DecodeLengthPrefixed, DecodeFixed32;
    handled := [];
    if |rep| < kHeader {
      return [], Corruption;
    }
    var input, found := rep[kHeader..], 0;
    ghost var goal := DecodeOps(input);
    while input != []
      invariant goal.0 == handled + DecodeOps(input).0 && goal.1 == DecodeOps(input).1
      invariant found == |handled|
      decreases |input|
    {
      found := found + 1;
      var tag := input[0];
      ghost var op := DecodeOp(input);
      assert op.Some? ==> handled + ([op.value.0] + DecodeOps(op.value.1).0) == handled + [op.value.0] + DecodeOps(op.value.1).0;
      input := input[1..];
      if tag == kTypeValue {
        var key := DecodeLengthPrefixed(input);
        if key.None? {
          return handled, Corruption;
        }
        var value := DecodeLengthPrefixed(key.value.1);
        if value.None? {
          return handled, Corruption;
        }
        input := value.value.1;
        handled := handled + [Put(key.value.0, value.value.0)];
      } else if tag == kTypeDeletion {
        var key := DecodeLengthPrefixed(input);
        if key.None? {
          return handled, Corruption;
        }
        input := key.value.1;
        handled := handled + [Delete(key.value.0)];
      } else {
        return handled, Corruption;
      }
    }
    status := if found == DecodeFixed32(rep[8..]) then Ok else Corruption;
  }

  /** Reading back a batch gives its sequence number and its operations, and no error. */
  lemma BatchRoundTrip(sequence: Word64, ops: seq<WriteOp>)
    requires Fit(ops)
    ensures var rep := Rep(sequence, |ops|, ops);
            && DecodeFixed64(rep) == sequence
            && DecodeOps(rep[kHeader..]) == (ops, true)
            && DecodeFixed32(rep[8..]) == |ops|
  {
    HeaderReads(sequence, |ops|, ops);
    OpsRoundTrip(ops);
  }
}
