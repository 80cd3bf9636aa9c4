/** The log of write batches as bytes: what a reader gets back after a crash. */
module LoggedBatches {
  import opened DbFormat
  import opened Coding
  import opened Log
  import opened WriteBatch

  datatype Logged = Logged(sequence: Word64, ops: seq<WriteOp>)

  ghost function Record(b: Logged): Bytes
    requires Fit(b.ops)
  {
    Rep(b.sequence, |b.ops|, b.ops)
  }

  ghost predicate AllFit(batches: seq<Logged>) {
    forall i :: 0 <= i < |batches| ==> Fit(batches[i].ops)
  }

  ghost function Records(batches: seq<Logged>): (r: seq<Bytes>)
    requires AllFit(batches)
    ensures |r| == |batches| && forall i :: 0 <= i < |r| ==> r[i] == Record(batches[i])
  {
    seq(|batches|, i requires 0 <= i < |batches| => Record(batches[i]))
  }

  /** The bytes of a log of batches, cut anywhere by a crash, give back a prefix of the
      batches: each one whole, with its sequence number, its operations and a right
      count, or not at all; and no corruption is reported. */
  lemma CrashKeepsWholeBatches(step: CrcStep, batches: seq<Logged>, t: nat) returns (n: nat)
    requires AllFit(batches)
    requires t <= |FileOf(step, Records(batches))|
    ensures Whole(step, Records(batches), t, n) && n <= |batches|
    ensures var r := ReadAllFrom(step, true, FileOf(step, Records(batches))[..t], 0);
            && r.drops == [] && |r.records| == n
            && forall i :: 0 <= i < n ==> ReadsAs(r.records[i], batches[i])
  {
    hide FileOf, ReadAllFrom, Whole, Fit;
    n := WholeExists(step, Records(batches), t);
    WholeBound(step, Records(batches), t, n);
    TruncatedLogReads(step, true, Records(batches), t, n);
    forall i | 0 <= i < n
      ensures ReadsAs(Records(batches)[i], batches[i])
    {
      BatchReads(batches[i]);
    }
  }

  lemma WholeBound(step: CrcStep, records: seq<Bytes>, t: nat, n: nat)
    requires Whole(step, records, t, n)
    ensures n <= |records|
  {
  }

  ghost predicate ReadsAs(record: Bytes, b: Logged) {
    && |record| >= kHeader
    && DecodeFixed64(record) == b.sequence
    && DecodeOps(record[kHeader..]) == (b.ops, true)
    && DecodeFixed32(record[8..]) == |b.ops|
  }

  lemma BatchReads(b: Logged)
    requires Fit(b.ops)
    ensures ReadsAs(Record(b), b)
  {
    BatchRoundTrip(b.sequence, b.ops);
  }
}
