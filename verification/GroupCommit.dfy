/** The writer queue: whoever is at the front writes for itself and for a run of the
    writers behind it, whatever the interleaving of arrivals. */
module GroupCommit {
  import opened DbFormat
  import opened Durable
  import WriteBatch

  /** A waiting writer: its operations (None for the caller that only wants the memtable
      compacted), whether it asked for a synced log, and the byte size of its batch. */
  datatype Waiting<T> = Waiting(ops: Option<seq<T>>, sync: bool, size: nat)

  const MAX_GROUP: nat := 0x10_0000
  const SMALL_WRITE: nat := 0x2_0000

  /** How large a group led by a batch of `size` bytes may grow. */
  function MaxSize(size: nat): nat {
    if size <= SMALL_WRITE then size + SMALL_WRITE else MAX_GROUP
  }

  /** Where a group that has reached writer `i` with `size` bytes ends. */
  function GroupEnd<T>(queue: seq<Waiting<T>>, i: nat, size: nat, maxSize: nat): (n: nat)
    requires 1 <= i <= |queue|
    ensures i <= n <= |queue|
    decreases |queue| - i
  {
    if i == |queue| then i
    else if queue[i].sync && !queue[0].sync then i
    else if queue[i].ops.None? then GroupEnd(queue, i + 1, size, maxSize)
    else if size + queue[i].size > maxSize then i
    else GroupEnd(queue, i + 1, size + queue[i].size, maxSize)
  }

  /** The number of writers that the front one writes for, itself included. */
  function GroupLength<T>(queue: seq<Waiting<T>>): (n: nat)
    requires queue != []
    ensures 1 <= n <= |queue|
  {
    GroupEnd(queue, 1, queue[0].size, MaxSize(queue[0].size))
  }

  /** The operations of the first `n` writers, in queue order. */
  function GroupOps<T>(queue: seq<Waiting<T>>, n: nat): seq<T>
    requires n <= |queue|
  {
    if n == 0 then []
    else GroupOps(queue, n - 1) + if queue[n - 1].ops.Some? then queue[n - 1].ops.value else []
  }

  function GroupBytes<T>(queue: seq<Waiting<T>>, n: nat): nat
    requires n <= |queue|
  {
    if n == 0 then 0 else GroupBytes(queue, n - 1) + if queue[n - 1].ops.Some? then queue[n - 1].size else 0
  }

  /** More than one batch is in the group. */
  predicate NeedsTmp<T>(queue: seq<Waiting<T>>, n: nat)
    requires n <= |queue|
  {
    exists j :: 1 <= j < n && queue[j].ops.Some?
  }

  /** A group goes on as long as it may: whoever is left out first wants a synced log that the
      leader does not, or has a batch that would take the group past the limit.  With another
      batch than the leader's in it, the group is within the limit. */
  ghost predicate AsLongAsMayBe<T>(queue: seq<Waiting<T>>, n: nat, limit: nat)
    requires 1 <= n <= |queue|
  {
    && (n < |queue| ==>
          || (queue[n].sync && !queue[0].sync)
          || (queue[n].ops.Some? && GroupBytes(queue, n) + queue[n].size > limit))
    && (forall j :: 0 < j < n && queue[j].sync ==> queue[0].sync)
    && (GroupBytes(queue, n) <= limit || forall j :: 0 < j < n ==> queue[j].ops.None?)
  }

  lemma {:induction false} GroupIsFull<T>(queue: seq<Waiting<T>>, i: nat, size: nat, limit: nat)
    requires 1 <= i <= |queue| && queue[0].ops.Some? && size == GroupBytes(queue, i)
    requires forall j :: 0 < j < i && queue[j].sync ==> queue[0].sync
    requires size <= limit || forall j :: 0 < j < i ==> queue[j].ops.None?
    ensures AsLongAsMayBe(queue, GroupEnd(queue, i, size, limit), limit)
    decreases |queue| - i
  {
    if i < |queue| && !(queue[i].sync && !queue[0].sync) {
      if queue[i].ops.None? {
        GroupIsFull(queue, i + 1, size, limit);
      } else if size + queue[i].size <= limit {
        GroupIsFull(queue, i + 1, size + queue[i].size, limit);
      }
    }
  }

  /** The limit in bytes: a megabyte, or 128 KB more than a leader of at most that size. */
  lemma GroupLengthIs<T>(queue: seq<Waiting<T>>)
    requires queue != [] && queue[0].ops.Some?
    ensures AsLongAsMayBe(queue, GroupLength(queue), if queue[0].size <= 131072 then queue[0].size + 131072 else 1048576)
  {
    assert GroupBytes(queue, 0) == 0 && GroupBytes(queue, 1) == queue[0].size;
    GroupIsFull(queue, 1, queue[0].size, MaxSize(queue[0].size));
  }

  /** Writers that arrive later do not change the group's operations. */
  lemma {:induction false} GroupOpsPrefix<T>(queue: seq<Waiting<T>>, more: seq<Waiting<T>>, n: nat)
    requires n <= |queue|
    ensures GroupOps(queue + more, n) == GroupOps(queue, n)
  {
    if n > 0 {
      GroupOpsPrefix(queue, more, n - 1);
    }
  }

  // ---------------------------------------------------------------- BuildBatchGroup

  class Writer {
    const batch: WriteBatch.Batch?
    const sync: bool

    constructor (batch: WriteBatch.Batch?, sync: bool)
      ensures this.batch == batch && this.sync == sync
    {
      this.batch, this.sync := batch, sync;
    }
  }

  ghost function Batches(writers: seq<Writer>): set<WriteBatch.Batch> {
    set w | w in writers && w.batch != null :: w.batch
  }

  ghost function View(w: Writer): Waiting<WriteBatch.WriteOp>
    reads if w.batch != null then {w.batch} else {}
  {
    if w.batch == null then Waiting(None, w.sync, 0) else Waiting(Some(w.batch.ops), w.sync, |w.batch.rep|)
  }

  ghost function Views(writers: seq<Writer>): (r: seq<Waiting<WriteBatch.WriteOp>>)
    reads Batches(writers)
    ensures |r| == |writers| && forall i :: 0 <= i < |writers| ==> r[i] == View(writers[i])
  {
    seq(|writers|, i requires 0 <= i < |writers| reads Batches(writers) => View(writers[i]))
  }

  /** The deque of writers, from the front one on.  The result holds the operations of
      the whole group in queue order; a caller's batch is never written to. */
  method BuildBatchGroup(writers: seq<Writer>, tmp: WriteBatch.Batch) returns (result: WriteBatch.Batch, n: nat)
    requires writers != [] && writers[0].batch != null
    requires tmp !in Batches(writers) && tmp.Valid() && tmp.ops == []
    requires forall b :: b in Batches(writers) ==> b.Valid()
    requires |GroupOps(Views(writers), |writers|)| <= 0xffff_ffff
    modifies tmp
    ensures Views(writers) == old(Views(writers))
    ensures n == GroupLength(Views(writers))
    ensures 1 <= n <= |writers|
    ensures AsLongAsMayBe(Views(writers), n, if |writers[0].batch.rep| <= 131072 then |writers[0].batch.rep| + 131072 else 1048576)
    ensures result.Valid() && result.ops == GroupOps(Views(writers), n)
    ensures result == if NeedsTmp(Views(writers), n) then tmp else writers[0].batch
    ensures result == writers[0].batch ==> tmp.Valid() && tmp.ops == []
  {
    hide WriteBatch.Batch.Valid, GroupOps, GroupLength, GroupEnd, View, AsLongAsMayBe;
    ghost var queue := Views(writers);
    var first := writers[0];
    AllBatches(writers);
    var size: nat := |first.batch.rep|;
    var maxSize := if size <= SMALL_WRITE then size + SMALL_WRITE else MAX_GROUP;
    result := first.batch;
    n := 1;
    ViewIs(first);
    GroupStart(queue);
    while n < |writers|
      invariant 1 <= n <= |writers| && Views(writers) == queue
      invariant GroupEnd(queue, n, size, maxSize) == GroupLength(queue)
      invariant result == if NeedsTmp(queue, n) then tmp else first.batch
      invariant result == first.batch ==> tmp.Valid() && tmp.ops == []
      invariant result.Valid() && result.ops == GroupOps(queue, n)
    {
      var w := writers[n];
      GroupStep(queue, n, size, maxSize);
      ViewIs(w);
      ViewIs(first);
      if w.sync && !first.sync {
        break;
      }
      if w.batch != null {
        size := size + |w.batch.rep|;
        if size > maxSize {
          break;
        }
        if result == first.batch {
          result := tmp;
          result.Append(first.batch);
        }
        result.Append(w.batch);
      }
      n := n + 1;
    }
    GroupStop(queue, n, size, maxSize);
    GroupLengthIs(queue);
  }

  lemma AllBatches(writers: seq<Writer>)
    ensures forall i :: 0 <= i < |writers| && writers[i].batch != null ==> writers[i].batch in Batches(writers)
  {
  }

  lemma ViewIs(w: Writer)
    ensures View(w).sync == w.sync
    ensures w.batch == null ==> View(w).ops == None
    ensures w.batch != null ==> View(w).ops == Some(w.batch.ops) && View(w).size == |w.batch.rep|
  {
  }

  lemma GroupStart<T>(queue: seq<Waiting<T>>)
    requires queue != []
    ensures GroupEnd(queue, 1, queue[0].size, MaxSize(queue[0].size)) == GroupLength(queue)
    ensures queue[0].ops.Some? ==> GroupOps(queue, 1) == queue[0].ops.value
  {
    if queue[0].ops.Some? {
      GroupOpsOne(queue);
    }
  }

  lemma GroupStop<T>(queue: seq<Waiting<T>>, n: nat, size: nat, maxSize: nat)
    requires 1 <= n <= |queue|
    ensures n == |queue| ==> GroupEnd(queue, n, size, maxSize) == n
  {
  }

  /** One round of the loop, on values. */
  lemma GroupStep<T>(queue: seq<Waiting<T>>, n: nat, size: nat, maxSize: nat)
    requires 1 <= n < |queue|
    ensures GroupOps(queue, n + 1) == GroupOps(queue, n) + if queue[n].ops.Some? then queue[n].ops.value else []
    ensures |GroupOps(queue, n + 1)| <= |GroupOps(queue, |queue|)|
    ensures GroupEnd(queue, n, size, maxSize) ==
            if queue[n].sync && !queue[0].sync then n
            else if queue[n].ops.None? then GroupEnd(queue, n + 1, size, maxSize)
            else if size + queue[n].size > maxSize then n
            else GroupEnd(queue, n + 1, size + queue[n].size, maxSize)
  {
    GroupOpsShorter(queue, n + 1);
  }

  lemma GroupOpsOne<T>(queue: seq<Waiting<T>>)
    requires queue != [] && queue[0].ops.Some?
    ensures GroupOps(queue, 1) == queue[0].ops.value
  {
    assert GroupOps(queue, 0) == [];
  }

  lemma {:induction false} GroupOpsShorter<T>(queue: seq<Waiting<T>>, n: nat)
    requires n <= |queue|
    ensures |GroupOps(queue, n)| <= |GroupOps(queue, |queue|)|
    decreases |queue| - n
  {
    if n < |queue| {
      GroupOpsShorter(queue, n + 1);
    }
  }

  // ---------------------------------------------------------------- the queue over time

  /** What the thread at the front of the queue is doing. */
  datatype Leader = Idle | Leading(n: nat, ops: seq<Op>, logged: bool)

  datatype Outcome = Done | Failed

  /** A group that has been written: the writers `first .. first + n` of all that ever
      arrived, and whether the log was synced for it. */
  datatype Group = Group(first: nat, n: nat, synced: bool)

  /** `arrived` lists all writers in the order of arrival; the first `left` of them have
      left the queue with the outcomes listed.  `applied` are the batches that went into
      the memtable; `lost` counts the operations of groups whose log append or sync failed. */
  datatype Queue = Queue(
    arrived: seq<Waiting<Op>>, left: nat, outcomes: seq<Outcome>, groups: seq<Group>, leader: Leader,
    lastSequence: nat, log: seq<Batch>, applied: seq<Batch>, lost: nat, bgError: bool, tmpBatch: seq<Op>)

  function InQueue(q: Queue): seq<Waiting<Op>>
    requires q.left <= |q.arrived|
  {
    q.arrived[q.left..]
  }

  const EMPTY_QUEUE: Queue := Queue([], 0, [], [], Idle, 0, [], [], 0, false, [])

  ghost predicate Arrive(q: Queue, q': Queue) {
    exists w :: q' == q.(arrived := q.arrived + [w])
  }

  /** MakeRoomForWrite failed, or the front writer has no batch: it leaves alone. */
  ghost predicate LeaveAlone(q: Queue, q': Queue) {
    && q.leader.Idle? && q.left < |q.arrived|
    && exists o :: (o == Done ==> q.arrived[q.left].ops.None?) && q' == AfterAlone(q, o)
  }

  function AfterAlone(q: Queue, o: Outcome): Queue {
    q.(left := q.left + 1, outcomes := q.outcomes + [o])
  }

  /** BuildBatchGroup: the temporary batch is used if more than one batch is in the group.
      After a background error MakeRoomForWrite fails, so no group is led any more. */
  ghost predicate Lead(q: Queue, q': Queue) {
    && q.leader.Idle? && !q.bgError && q.left < |q.arrived| && q.arrived[q.left].ops.Some?
    && var n, ops := GroupLength(InQueue(q)), GroupOps(InQueue(q), GroupLength(InQueue(q)));
       q' == q.(leader := Leading(n, ops, false), tmpBatch := if NeedsTmp(InQueue(q), n) then ops else q.tmpBatch)
  }


  /** AddRecord, with the sequence number after the last one. */
  ghost predicate AppendLog(q: Queue, q': Queue) {
    && q.leader.Leading? && !q.leader.logged
    && q' == q.(log := q.log + [Batch(q.lastSequence + 1, q.leader.ops)], leader := q.leader.(logged := true))
  }

  /** InsertInto, the new last sequence number, and the whole group leaves the queue. */
  ghost predicate Commit(q: Queue, q': Queue) {
    && q.leader.Leading? && q.leader.logged && q.left + q.leader.n <= |q.arrived| && q.left < |q.arrived|
    && q' == AfterCommit(q)
  }

  function AfterCommit(q: Queue): Queue
    requires q.leader.Leading? && q.left < |q.arrived|
  {
    var n := q.leader.n;
    q.(left := q.left + n, outcomes := q.outcomes + Outcomes(Done, n), leader := Idle,
       groups := q.groups + [Group(q.left, n, q.arrived[q.left].sync)],
       lastSequence := q.lastSequence + |q.leader.ops|, applied := q.applied + [Batch(q.lastSequence + 1, q.leader.ops)], tmpBatch := [])
  }

  /** AddRecord failed, or the sync after it did: nothing goes into the memtable, the whole
      group leaves with the error, but its sequence numbers are used up all the same.  A
      failed sync, after which the record may or may not be in the log, is a background
      error. */
  ghost predicate FailGroup(q: Queue, q': Queue) {
    && q.leader.Leading? && q.left + q.leader.n <= |q.arrived| && q.left < |q.arrived|
    && (q.leader.logged ==> q.arrived[q.left].sync)
    && q' == AfterFailure(q)
  }

  function AfterFailure(q: Queue): Queue
    requires q.leader.Leading?
  {
    q.(left := q.left + q.leader.n, outcomes := q.outcomes + Outcomes(Failed, q.leader.n), leader := Idle,
       lastSequence := q.lastSequence + |q.leader.ops|, lost := q.lost + |q.leader.ops|,
       bgError := q.bgError || q.leader.logged, tmpBatch := [])
  }

  function Outcomes(o: Outcome, n: nat): (r: seq<Outcome>)
    ensures |r| == n && forall i :: 0 <= i < n ==> r[i] == o
  {
    seq(n, _ => o)
  }

  ghost predicate QueueStep(q: Queue, q': Queue) {
    Arrive(q, q') || LeaveAlone(q, q') || Lead(q, q') || AppendLog(q, q') || Commit(q, q') || FailGroup(q, q')
  }

  /** The operations of the writers that left with success, in the order of arrival. */
  function Succeeded(arrived: seq<Waiting<Op>>, outcomes: seq<Outcome>): seq<Op>
    requires |outcomes| <= |arrived|
  {
    if outcomes == [] then []
    else
      var k := |outcomes| - 1;
      Succeeded(arrived, outcomes[..k]) +
      if outcomes[k] == Done && arrived[k].ops.Some? then arrived[k].ops.value else []
  }

  ghost predicate InGroup(q: Queue, g: nat, i: nat) {
    g < |q.groups| && q.groups[g].first <= i < q.groups[g].first + q.groups[g].n && i < |q.arrived|
  }

  /** Groups follow one another, and one with a synced writer in it was synced. */
  ghost predicate GroupsOk(q: Queue) {
    && (forall g, h :: 0 <= g < h < |q.groups| ==> q.groups[g].first + q.groups[g].n <= q.groups[h].first)
    && (forall g :: 0 <= g < |q.groups| ==> q.groups[g].first + q.groups[g].n <= q.left)
    && forall g: nat, i: nat :: InGroup(q, g, i) && q.arrived[i].sync ==> q.groups[g].synced
  }

  /** Batches with increasing sequence numbers that do not overlap and end at or before
      `last`. */
  ghost predicate Spaced(batches: seq<Batch>, last: nat) {
    && (forall i, j :: 0 <= i < j < |batches| ==> batches[i].sequence + |batches[i].ops| <= batches[j].sequence)
    && forall i :: 0 <= i < |batches| ==> 1 <= batches[i].sequence && batches[i].sequence + |batches[i].ops| <= last + 1
  }

  function AllOps(batches: seq<Batch>): seq<Op> {
    if batches == [] then [] else AllOps(batches[..|batches| - 1]) + batches[|batches| - 1].ops
  }

  lemma AllOpsSnoc(batches: seq<Batch>, b: Batch)
    ensures AllOps(batches + [b]) == AllOps(batches) + b.ops
  {
    assert (batches + [b])[..|batches|] == batches;
  }

  /** What the log and the memtable hold, with `ops` logged but not yet applied. */
  ghost predicate LogOk(q: Queue, ops: seq<Op>) {
    && Spaced(q.log, q.lastSequence + |ops|) && Spaced(q.applied, q.lastSequence)
    && (forall b :: b in q.applied ==> b in q.log)
    && q.lastSequence == |AllOps(q.applied)| + q.lost
    && (q.lost == 0 ==> Chain(q.log, AllOps(q.applied) + ops, 0))
  }

  /** The operations logged ahead of the memtable. */
  function Ahead(q: Queue): seq<Op> {
    if q.leader.Leading? && q.leader.logged then q.leader.ops else []
  }

  ghost predicate QueueInv(q: Queue) {
    && q.left == |q.outcomes| <= |q.arrived|
    && AllOps(q.applied) == Succeeded(q.arrived, q.outcomes)
    && (q.leader.Idle? ==> q.tmpBatch == [])
    && (q.leader.Leading? ==> LeaderOk(q))
    && LogOk(q, Ahead(q))
    && (q.leader.Leading? && q.leader.logged ==> q.log != [] && q.log[|q.log| - 1] == Batch(q.lastSequence + 1, q.leader.ops))
    && GroupsOk(q)
  }

  ghost predicate LeaderOk(q: Queue)
    requires q.left <= |q.arrived| && q.leader.Leading?
  {
    && 1 <= q.leader.n <= |InQueue(q)|
    && q.leader.ops == GroupOps(InQueue(q), q.leader.n)
    && (forall j :: 0 <= j < q.leader.n && InQueue(q)[j].sync ==> InQueue(q)[0].sync)
  }

  lemma {:induction false} SucceededMore(arrived: seq<Waiting<Op>>, more: seq<Waiting<Op>>, outcomes: seq<Outcome>)
    requires |outcomes| <= |arrived|
    ensures Succeeded(arrived + more, outcomes) == Succeeded(arrived, outcomes)
    decreases |outcomes|
  {
    if outcomes != [] {
      SucceededMore(arrived, more, outcomes[..|outcomes| - 1]);
    }
  }

  /** When a group leaves, its operations are appended in queue order. */
  lemma {:induction false} SucceededGroup(arrived: seq<Waiting<Op>>, outcomes: seq<Outcome>, n: nat)
    requires |outcomes| + n <= |arrived|
    ensures Succeeded(arrived, outcomes + Outcomes(Done, n)) == Succeeded(arrived, outcomes) + GroupOps(arrived[|outcomes|..], n)
    ensures Succeeded(arrived, outcomes + Outcomes(Failed, n)) == Succeeded(arrived, outcomes)
    decreases n
  {
    hide Succeeded, GroupOps, Outcomes;
    if n == 0 {
      NoOutcomes(outcomes);
      NoGroup(arrived[|outcomes|..]);
    } else {
      SucceededGroup(arrived, outcomes, n - 1);
      OneOutcomeMore(outcomes, Done, n);
      OneOutcomeMore(outcomes, Failed, n);
      SucceededSnoc(arrived, outcomes + Outcomes(Done, n - 1), Done);
      SucceededSnoc(arrived, outcomes + Outcomes(Failed, n - 1), Failed);
      OneWriterMore(arrived, |outcomes|, n);
      Grouped(Succeeded(arrived, outcomes), GroupOps(arrived[|outcomes|..], n - 1), OpsOf(arrived[|outcomes| + n - 1]));
    }
  }

  function OpsOf(w: Waiting<Op>): seq<Op> {
    if w.ops.Some? then w.ops.value else []
  }

  lemma Grouped(a: seq<Op>, b: seq<Op>, c: seq<Op>)
    ensures a + b + c == a + (b + c)
  {
  }

  lemma NoOutcomes(outcomes: seq<Outcome>)
    ensures forall o :: outcomes + Outcomes(o, 0) == outcomes
  {
  }

  lemma NoGroup(queue: seq<Waiting<Op>>)
    ensures forall s: seq<Op> :: s + GroupOps(queue, 0) == s
  {
  }

  lemma OneOutcomeMore(outcomes: seq<Outcome>, o: Outcome, n: nat)
    requires n > 0
    ensures outcomes + Outcomes(o, n) == outcomes + Outcomes(o, n - 1) + [o]
  {
  }

  lemma OneWriterMore(arrived: seq<Waiting<Op>>, k: nat, n: nat)
    requires n > 0 && k + n <= |arrived|
    ensures GroupOps(arrived[k..], n) == GroupOps(arrived[k..], n - 1) + OpsOf(arrived[k + n - 1])
  {
    assert arrived[k..][n - 1] == arrived[k + n - 1];
  }

  lemma SucceededSnoc(arrived: seq<Waiting<Op>>, outcomes: seq<Outcome>, o: Outcome)
    requires |outcomes| < |arrived|
    ensures Succeeded(arrived, outcomes + [o]) == Succeeded(arrived, outcomes) + if o == Done then OpsOf(arrived[|outcomes|]) else []
  {
    assert (outcomes + [o])[..|outcomes|] == outcomes;
  }

  lemma QueueStepInv(q: Queue, q': Queue)
    requires QueueInv(q) && QueueStep(q, q')
    ensures QueueInv(q')
  {
    hide QueueInv, Arrive, LeaveAlone, Lead, AppendLog, Commit, FailGroup;
    if Arrive(q, q') {
      ArriveInv(q, q');
    } else if LeaveAlone(q, q') {
      LeaveAloneInv(q, q');
    } else if Lead(q, q') {
      LeadInv(q, q');
    } else if AppendLog(q, q') {
      AppendLogInv(q, q');
    } else if Commit(q, q') {
      CommitInv(q, q');
    } else {
      FailGroupInv(q, q');
    }
  }

  lemma ArriveInv(q: Queue, q': Queue)
    requires QueueInv(q) && Arrive(q, q')
    ensures QueueInv(q')
  {
    hide Spaced, Chain, GroupLength, GroupOps, Succeeded, AllOps, GroupsOk;
    SameGroups(q, q');
    var w :| q' == q.(arrived := q.arrived + [w]);
    SucceededMore(q.arrived, [w], q.outcomes);
    assert InQueue(q') == InQueue(q) + [w];
    if q.leader.Leading? {
      GroupOpsPrefix(InQueue(q), [w], q.leader.n);
    }
  }

  lemma SameGroups(q: Queue, q': Queue)
    requires GroupsOk(q) && q.left <= |q.arrived| && q'.groups == q.groups && q'.left == q.left
    requires q.arrived <= q'.arrived
    ensures GroupsOk(q')
  {
    forall g: nat, i: nat | InGroup(q', g, i) && q'.arrived[i].sync
      ensures q'.groups[g].synced
    {
      assert InGroup(q, g, i);
    }
  }

  lemma LeaveAloneInv(q: Queue, q': Queue)
    requires QueueInv(q) && LeaveAlone(q, q')
    ensures QueueInv(q')
  {
    hide Spaced, Chain, Succeeded;
    var o :| (o == Done ==> q.arrived[q.left].ops.None?) && q' == AfterAlone(q, o);
    SucceededSnoc(q.arrived, q.outcomes, o);
    assert Succeeded(q.arrived, q.outcomes) + [] == Succeeded(q.arrived, q.outcomes);
  }

  lemma LeadInv(q: Queue, q': Queue)
    requires QueueInv(q) && Lead(q, q')
    ensures QueueInv(q')
  {
    hide Spaced, Chain, Succeeded;
    var queue := InQueue(q);
    GroupOpsOne(queue);
    GroupLengthIs(queue);
  }

  lemma AppendLogInv(q: Queue, q': Queue)
    requires QueueInv(q) && AppendLog(q, q')
    ensures QueueInv(q')
  {
    hide Chain, Succeeded, GroupOps, AllOps;
    var ops, hist := q.leader.ops, AllOps(q.applied);
    assert hist + [] == hist;
    if q.lost == 0 {
      ChainSnoc(q.log, hist, 0, ops);
    }
    SpacedSnoc(q.log, q.lastSequence, ops);
    assert InQueue(q') == InQueue(q);
  }

  lemma SpacedSnoc(batches: seq<Batch>, last: nat, ops: seq<Op>)
    requires Spaced(batches, last)
    ensures Spaced(batches + [Batch(last + 1, ops)], last + |ops|)
  {
  }

  lemma CommitInv(q: Queue, q': Queue)
    requires QueueInv(q) && Commit(q, q')
    ensures QueueInv(q')
  {
    hide Chain, Succeeded, GroupOps, AllOps, GroupsOk;
    SucceededGroup(q.arrived, q.outcomes, q.leader.n);
    CommitGroups(q, q');
    AllOpsSnoc(q.applied, Batch(q.lastSequence + 1, q.leader.ops));
    SpacedSnoc(q.applied, q.lastSequence, q.leader.ops);
    assert AllOps(q'.applied) + [] == AllOps(q'.applied);
  }

  lemma FailGroupInv(q: Queue, q': Queue)
    requires QueueInv(q) && FailGroup(q, q')
    ensures QueueInv(q')
  {
    hide Chain, Succeeded, GroupOps, AllOps;
    SucceededGroup(q.arrived, q.outcomes, q.leader.n);
  }

  lemma CommitGroups(q: Queue, q': Queue)
    requires QueueInv(q) && Commit(q, q')
    ensures GroupsOk(q')
  {
    hide LogOk, GroupsOk, Succeeded, AllOps, GroupOps, InGroup;
    LeaderSynced(q);
    GroupsSnoc(q, q');
  }

  lemma LeaderSynced(q: Queue)
    requires QueueInv(q) && q.leader.Leading?
    ensures q.left + q.leader.n <= |q.arrived| && 1 <= q.leader.n
    ensures forall i :: q.left <= i < q.left + q.leader.n && q.arrived[i].sync ==> q.arrived[q.left].sync
  {
    hide LogOk, GroupsOk, Succeeded, AllOps, GroupOps;
    forall i | q.left <= i < q.left + q.leader.n && q.arrived[i].sync
      ensures q.arrived[q.left].sync
    {
      assert InQueue(q)[i - q.left] == q.arrived[i];
    }
  }

  lemma GroupsSnoc(q: Queue, q': Queue)
    requires GroupsOk(q) && q.left <= |q.arrived| && q'.arrived == q.arrived && q'.left >= q.left
    requires q'.groups != [] && q'.groups[..|q'.groups| - 1] == q.groups
    requires var g := q'.groups[|q'.groups| - 1];
             && g.first == q.left && g.first + g.n == q'.left <= |q.arrived|
             && forall i :: g.first <= i < q'.left && q.arrived[i].sync ==> g.synced
    ensures GroupsOk(q')
  {
    var last := |q'.groups| - 1;
    assert forall g :: 0 <= g < last ==> q'.groups[g] == q.groups[g];
    forall g: nat, i: nat | InGroup(q', g, i) && q'.arrived[i].sync
      ensures q'.groups[g].synced
    {
      if g < last {
        assert InGroup(q, g, i);
      }
    }
  }

  // ---------------------------------------------------------------- all interleavings

  ghost predicate IsSchedule(run: seq<Queue>) {
    && run != [] && run[0] == EMPTY_QUEUE
    && forall i, j :: 0 <= i < j < |run| && j == i + 1 ==> QueueStep(run[i], run[j])
  }

  lemma EmptyInv()
    ensures QueueInv(EMPTY_QUEUE)
  {
    var q := EMPTY_QUEUE;
    assert q.arrived == [] && q.outcomes == [] && q.log == [] && q.applied == [] && q.groups == [] && q.leader.Idle?;
    hide EMPTY_QUEUE, GroupOps, GroupLength, LeaderOk, InGroup;
    assert AllOps(q.applied) == [] == Succeeded(q.arrived, q.outcomes);
    assert Chain(q.log, [], 0);
  }

  lemma {:induction false} ScheduleInv(run: seq<Queue>, i: nat)
    requires IsSchedule(run) && i < |run|
    ensures QueueInv(run[i])
  {
    hide QueueInv, QueueStep;
    if i == 0 {
      EmptyInv();
    } else {
      ScheduleInv(run, i - 1);
      assert QueueStep(run[i - 1], run[i]);
      QueueStepInv(run[i - 1], run[i]);
    }
  }

  /** How far the writers that wait now are from all having left. */
  function Distance(q: Queue): nat
    requires q.left <= |q.arrived|
  {
    var waiting := 3 * (|q.arrived| - q.left);
    var done := if q.leader.Idle? then 0 else if q.leader.logged then 2 else 1;
    if waiting < done then 0 else waiting - done
  }

  /** Whoever waits, the queue can go on without anyone else arriving: no writer is stuck. */
  lemma CanGoOn(q: Queue) returns (q': Queue)
    requires QueueInv(q) && q.left < |q.arrived|
    ensures LeaveAlone(q, q') || Lead(q, q') || AppendLog(q, q') || Commit(q, q')
    ensures q'.arrived == q.arrived && q.left <= q'.left <= |q.arrived| && Distance(q') < Distance(q)
    ensures !q.bgError ==> !q'.bgError && (q'.outcomes == q.outcomes || AllDone(q'.outcomes[|q.outcomes|..]))
    ensures q.outcomes <= q'.outcomes && q'.lost == q.lost
  {
    hide Spaced, Chain, Succeeded, AllOps, GroupOps, GroupLength, GroupsOk;
    match q.leader
    case Idle =>
      if q.bgError || q.arrived[q.left].ops.None? {
        var o := if q.bgError then Failed else Done;
        q' := AfterAlone(q, o);
        assert q'.outcomes[|q.outcomes|..] == [o];
      } else {
        var n, ops := GroupLength(InQueue(q)), GroupOps(InQueue(q), GroupLength(InQueue(q)));
        q' := q.(leader := Leading(n, ops, false), tmpBatch := if NeedsTmp(InQueue(q), n) then ops else q.tmpBatch);
      }
    case Leading(n, ops, logged) =>
      if logged {
        q' := AfterCommit(q);
        assert q'.outcomes[|q.outcomes|..] == Outcomes(Done, n);
      } else {
        q' := q.(log := q.log + [Batch(q.lastSequence + 1, ops)], leader := q.leader.(logged := true));
      }
  }

  ghost predicate AllDone(outcomes: seq<Outcome>) {
    forall i :: 0 <= i < |outcomes| ==> outcomes[i] == Done
  }

  ghost predicate Steps(run: seq<Queue>) {
    run != [] && forall i, j :: 0 <= i < j < |run| && j == i + 1 ==> QueueStep(run[i], run[j])
  }

  lemma StepBefore(q: Queue, run: seq<Queue>)
    requires Steps(run) && QueueStep(q, run[0])
    ensures Steps([q] + run)
  {
    hide QueueStep;
    var longer := [q] + run;
    forall i, j | 0 <= i < j < |longer| && j == i + 1
      ensures QueueStep(longer[i], longer[j])
    {
      assert longer[j] == run[j - 1];
      if i > 0 {
        assert longer[i] == run[i - 1];
      }
    }
  }

  lemma DoneInTurn(a: seq<Outcome>, b: seq<Outcome>, c: seq<Outcome>)
    requires a <= b <= c && (b == a || AllDone(b[|a|..])) && AllDone(c[|b|..])
    ensures AllDone(c[|a|..])
  {
    assert c[|a|..] == b[|a|..] + c[|b|..];
  }

  /** A way on from `q` in which every waiting writer leaves, with success unless a sync has
      failed before. */
  ghost predicate AllLeave(q: Queue, run: seq<Queue>) {
    && Steps(run) && run[0] == q
    && var last := run[|run| - 1];
       && last.arrived == q.arrived && last.left == |q.arrived| && q.outcomes <= last.outcomes
       && (!q.bgError ==> AllDone(last.outcomes[|q.outcomes|..]))
  }

  lemma LeaveAfterStep(q: Queue, next: Queue, rest: seq<Queue>)
    requires QueueStep(q, next) && AllLeave(next, rest) && next.arrived == q.arrived && q.outcomes <= next.outcomes
    requires !q.bgError ==> !next.bgError && (next.outcomes == q.outcomes || AllDone(next.outcomes[|q.outcomes|..]))
    ensures AllLeave(q, [q] + rest)
  {
    assert rest != [];
    hide QueueStep, Steps, AllDone;
    StepBefore(q, rest);
    var run, last := [q] + rest, rest[|rest| - 1];
    assert run[0] == q && run[|run| - 1] == last;
    if !q.bgError {
      DoneInTurn(q.outcomes, next.outcomes, last.outcomes);
    }
  }

  /** From any state there is such a way. */
  lemma {:induction false} EveryoneLeaves(q: Queue) returns (run: seq<Queue>)
    requires QueueInv(q)
    ensures AllLeave(q, run)
    decreases Distance(q)
  {
    assert q.left <= |q.arrived|;
    hide QueueInv, QueueStep, AllLeave, AllDone, LeaveAlone, Lead, AppendLog, Commit, Distance;
    if q.left == |q.arrived| {
      run := [q];
      AtTheEnd(q);
    } else {
      var next := CanGoOn(q);
      OneOfSteps(q, next);
      QueueStepInv(q, next);
      var rest := EveryoneLeaves(next);
      run := [q] + rest;
      LeaveAfterStep(q, next, rest);
    }
  }

  lemma AtTheEnd(q: Queue)
    requires q.left == |q.arrived|
    ensures AllLeave(q, [q])
  {
  }

  lemma OneOfSteps(q: Queue, q': Queue)
    requires LeaveAlone(q, q') || Lead(q, q') || AppendLog(q, q') || Commit(q, q')
    ensures QueueStep(q, q')
  {
    hide LeaveAlone, Lead, AppendLog, Commit, Arrive, FailGroup;
  }

  /** Whatever the interleaving and whatever fails: between groups, what went into the
      memtable is exactly the operations of the writers that succeeded, in the order in which
      they joined the queue; every batch of it is in the log; and the batches of both have
      increasing sequence numbers that never overlap. */
  lemma LogIsQueueOrder(run: seq<Queue>, i: nat)
    requires IsSchedule(run) && i < |run| && run[i].leader.Idle?
    ensures |run[i].outcomes| <= |run[i].arrived|
    ensures AllOps(run[i].applied) == Succeeded(run[i].arrived, run[i].outcomes)
    ensures forall b :: b in run[i].applied ==> b in run[i].log
    ensures Spaced(run[i].log, run[i].lastSequence) && Spaced(run[i].applied, run[i].lastSequence)
    ensures run[i].tmpBatch == []
  {
    hide Spaced, Succeeded, Chain;
    ScheduleInv(run, i);
  }

  /** The log is those operations and nothing else, its sequence numbers leave no gap and
      the last one is used, exactly as long as no operation was in a group whose log append
      or sync failed. */
  lemma LogHasNoGap(run: seq<Queue>, i: nat)
    requires IsSchedule(run) && i < |run| && run[i].leader.Idle?
    ensures |run[i].outcomes| <= |run[i].arrived|
    ensures run[i].lost == 0 <==>
            && Chain(run[i].log, Succeeded(run[i].arrived, run[i].outcomes), 0)
            && run[i].lastSequence == |Succeeded(run[i].arrived, run[i].outcomes)|
  {
    hide Spaced, Succeeded, Chain, AllOps;
    ScheduleInv(run, i);
    assert AllOps(run[i].applied) + [] == AllOps(run[i].applied);
  }

  /** After a failed sync nothing is logged or applied any more. */
  lemma {:induction false} NothingAfterSyncError(run: seq<Queue>, i: nat, j: nat)
    requires IsSchedule(run) && i <= j < |run| && run[i].bgError && run[i].leader.Idle?
    ensures run[j].bgError && run[j].leader.Idle? && run[j].log == run[i].log && run[j].applied == run[i].applied
    decreases j - i
  {
    if i < j {
      NothingAfterSyncError(run, i, j - 1);
      assert QueueStep(run[j - 1], run[j]);
    }
  }

  /** So a group whose sync fails is the last one: from then on neither the log nor the
      memtable changes. */
  lemma SyncErrorIsFinal(run: seq<Queue>, i: nat, j: nat)
    requires IsSchedule(run) && i < j < |run| && run[i].leader.Leading? && run[i].leader.logged
    requires FailGroup(run[i], run[i + 1])
    ensures run[j].log == run[i].log && run[j].applied == run[i].applied
  {
    hide IsSchedule;
    NothingAfterSyncError(run, i + 1, j);
  }

  /** A writer that has left never comes back, and its outcome never changes. */
  lemma {:induction false} LeftForGood(run: seq<Queue>, i: nat, j: nat, w: nat)
    requires IsSchedule(run) && i <= j < |run| && w < run[i].left
    ensures HasLeft(run[i], w) && HasLeft(run[j], w) && run[j].outcomes[w] == run[i].outcomes[w]
    decreases j - i
  {
    hide QueueInv, QueueStep;
    ScheduleInv(run, i);
    OutcomeKnown(run[i], w);
    if i < j {
      LeftForGood(run, i, j - 1, w);
      ScheduleInv(run, j - 1);
      assert QueueStep(run[j - 1], run[j]);
      StepKeepsOutcome(run[j - 1], run[j], w);
    }
  }

  ghost predicate HasLeft(q: Queue, w: nat) {
    w < q.left && w < |q.outcomes|
  }

  lemma OutcomeKnown(q: Queue, w: nat)
    requires QueueInv(q) && w < q.left
    ensures HasLeft(q, w)
  {
  }

  lemma StepKeepsOutcome(q: Queue, q': Queue, w: nat)
    requires QueueInv(q) && QueueStep(q, q') && HasLeft(q, w)
    ensures HasLeft(q', w) && q'.outcomes[w] == q.outcomes[w]
  {
  }

  /** A write that asked for a synced log and succeeded was in a group whose leader
      asked for it too. */
  lemma SyncHonoured(run: seq<Queue>, i: nat, g: nat, w: nat)
    requires IsSchedule(run) && i < |run| && InGroup(run[i], g, w)
    ensures w < run[i].left
    ensures run[i].arrived[w].sync ==> run[i].groups[g].synced
  {
    ScheduleInv(run, i);
  }
}
