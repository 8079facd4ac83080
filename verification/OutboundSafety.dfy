/** What every reachable state of the outgoing path satisfies: slots are conserved, no
    packet completes twice, and what the session gets of a batch is a prefix of it. */
module OutboundSafety {
  import opened Bytes
  import opened OutboundWriter

  // ---------------------------------------------------------------- invariant

  predicate HoldsSlot(p: Producer) {
    p.Holding? || p.Returning?
  }

  /** Every held slot is accounted for: taken and not pushed, queued, or popped and not
      released. */
  ghost predicate Conserved(s: State) {
    && s.slots == |s.holders| + |s.queue| + Held(s.writer)
    && s.slots <= s.capacity
    && forall b :: b in s.holders <==> b in s.batches && HoldsSlot(s.batches[b].producer)
  }

  ghost predicate OneBatch(group: seq<Packet>) {
    forall i :: 0 <= i < |group| ==> group[i].batch == group[0].batch
  }

  ghost predicate WriterOk(s: State) {
    && (forall p :: p in InFlight(s) ==> p.batch in s.batches)
    && match s.writer
       case Checked(group, _) => group != [] && OneBatch(group)
       case InWrite(group, _) => group != [] && OneBatch(group)
       case Settling(group, _, verdict, releasing) =>
         && (releasing ==> group != [])
         && (group != [] ==> group[0].batch in s.batches)
         && (!verdict.Failed? ==> OneBatch(group))
         && (verdict == Skipped && group != [] ==> s.batches[group[0].batch].err.Some?)
       case _ => true
  }

  /** The writer has found batch b unfailed and may be handing it over. */
  predicate InHand(w: Writer, b: nat) {
    (w.Checked? || w.InWrite?) && w.group != [] && w.group[0].batch == b
  }

  /** Packets of b given to the session and not completed yet. */
  function Ahead(w: Writer, b: nat): nat {
    if w.InWrite? && w.group != [] && w.group[0].batch == b then |w.group|
    else if w.Settling? && w.verdict.Written? && w.group != [] && w.group[0].batch == b then
      |w.group| - (if w.releasing then 1 else 0)
    else 0
  }

  /** A failed session write of b that no packet has reported yet. */
  predicate Unreported(w: Writer, b: nat) {
    w.Settling? && w.verdict.Written? && w.verdict.error.Some? && !w.releasing && w.group != [] && w.group[0].batch == b
  }

  predicate ProducerOk(t: Batch) {
    match t.producer
    case Acquiring(k) => k < t.size
    case Holding(k) => k < t.size
    case Returning(k) => k < t.size
    case Failing(k, next) => k <= next < t.size
    case Awaiting(k) => k <= t.size
    case Returned(k, result) => k <= t.size && t.remaining == 0 && result == t.err
  }

  ghost predicate CounterOk(t: Batch) {
    && t.settled <= t.producer.enqueued <= FailedTo(t) <= t.size && t.size > 0
    && t.remaining == t.size - t.settled - (FailedTo(t) - t.producer.enqueued)
    && (FailedTo(t) > t.producer.enqueued ==> t.err.Some?)
    && t.done == (if t.remaining == 0 then Some(t.err) else None)
    && t.err == FirstOf(t.errors)
  }

  ghost predicate HandedOk(t: Batch, w: Writer, b: nat) {
    && t.handed == Range(0, |t.handed|)
    && (t.err.None? || InHand(w, b) ==> |t.handed| == t.settled + Ahead(w, b))
    && (t.writeErrors != [] && t.err.None? ==> Unreported(w, b))
  }

  /** t is batch b with these of its packets still in flight. */
  ghost predicate BatchOk(t: Batch, w: Writer, b: nat, flying: seq<nat>) {
    && ProducerOk(t) && CounterOk(t) && HandedOk(t, w, b)
    && flying == Range(t.settled, t.producer.enqueued)
  }

  ghost predicate BatchesOk(s: State) {
    forall b :: b in s.batches ==> BatchOk(s.batches[b], s.writer, b, Of(InFlight(s), b))
  }

  ghost predicate Distinct(log: seq<Packet>) {
    forall i, j :: 0 <= i < j < |log| ==> log[i] != log[j]
  }

  predicate Logged(t: Batch, i: nat) {
    i < t.settled || t.producer.enqueued <= i < FailedTo(t)
  }

  ghost predicate LogOk(s: State) {
    && Distinct(s.completions)
    && forall p :: p in s.completions ==> p.batch in s.batches && Logged(s.batches[p.batch], p.index)
  }

  ghost predicate Inv(s: State) {
    Conserved(s) && WriterOk(s) && BatchesOk(s) && LogOk(s)
  }

  function Initial(capacity: nat): State {
    State(capacity, 0, [], false, false, map[], {}, Idle, [])
  }

  lemma InitialInv(capacity: nat)
    ensures Inv(Initial(capacity))
  {
  }

  // ---------------------------------------------------------------- the writer alone

  /** A writer step that leaves the batches and the packets in flight alone. */
  lemma WriterMoves(s: State, s': State)
    requires Inv(s) && s'.batches == s.batches && s'.holders == s.holders && s'.completions == s.completions
    requires InFlight(s') == InFlight(s) && WriterOk(s') && Conserved(s')
    requires forall b :: b in s.batches ==>
               && Ahead(s'.writer, b) == Ahead(s.writer, b)
               && (InHand(s'.writer, b) ==> InHand(s.writer, b) || s.batches[b].err.None?)
               && (Unreported(s.writer, b) ==> Unreported(s'.writer, b))
    ensures Inv(s')
  {
    hide Of;
    forall b | b in s.batches ensures BatchOk(s'.batches[b], s'.writer, b, Of(InFlight(s'), b)) {
      assert BatchOk(s.batches[b], s.writer, b, Of(InFlight(s), b));
    }
  }

  lemma EmptyInv(s: State, a: Action)
    requires Inv(s) && Enabled(s, a) && (a.PopNothing? || a.TestEmpty?)
    ensures Inv(Next(s, a))
  {
    hide Of, BatchOk;
    assert InFlight(Next(s, a)) == InFlight(s);
    WriterMoves(s, Next(s, a));
  }

  lemma PopInv(s: State)
    requires Inv(s) && Enabled(s, PopAll)
    ensures Inv(Next(s, PopAll))
  {
    hide Of, BatchOk;
    var s' := Next(s, PopAll);
    assert InFlight(s') == InFlight(s);
    WriterMoves(s, s');
  }

  lemma SeeClosedInv(s: State)
    requires Inv(s) && Enabled(s, SeeClosed)
    ensures Inv(Next(s, SeeClosed))
  {
    hide Of, BatchOk;
    var s' := Next(s, SeeClosed);
    assert InFlight(s') == InFlight(s);
    WriterMoves(s, s');
  }

  lemma InspectInv(s: State)
    requires Inv(s) && Enabled(s, Inspect)
    ensures Inv(Next(s, Inspect))
  {
    hide Of, BatchOk;
    var s' := Next(s, Inspect);
    var rest, n := s.writer.rest, GroupLength(s.writer.rest);
    assert rest[..n] + rest[n..] == rest;
    assert InFlight(s') == InFlight(s);
    WriterMoves(s, s');
  }

  lemma ReleaseInv(s: State)
    requires Inv(s) && Enabled(s, ReleaseOne)
    ensures Inv(Next(s, ReleaseOne))
  {
    hide Of, BatchOk;
    var s' := Next(s, ReleaseOne);
    assert InFlight(s') == InFlight(s);
    WriterMoves(s, s');
  }

  lemma NextGroupInv(s: State)
    requires Inv(s) && Enabled(s, NextGroup)
    ensures Inv(Next(s, NextGroup))
  {
    hide Of, BatchOk;
    var s' := Next(s, NextGroup);
    assert InFlight(s') == InFlight(s);
    WriterMoves(s, s');
  }

  // ---------------------------------------------------------------- one batch

  /** A step that changes batch b only. */
  lemma BatchMoves(s: State, s': State, b: nat)
    requires BatchesOk(s) && b in s'.batches && s'.batches.Keys == s.batches.Keys + {b}
    requires forall c :: c in s.batches && c != b ==>
               && s'.batches[c] == s.batches[c] && Of(InFlight(s'), c) == Of(InFlight(s), c)
               && Ahead(s'.writer, c) == Ahead(s.writer, c)
               && (InHand(s'.writer, c) ==> InHand(s.writer, c))
               && (Unreported(s.writer, c) ==> Unreported(s'.writer, c))
    requires BatchOk(s'.batches[b], s'.writer, b, Of(InFlight(s'), b))
    ensures BatchesOk(s')
  {
    forall c | c in s'.batches ensures BatchOk(s'.batches[c], s'.writer, c, Of(InFlight(s'), c)) {
      if c != b {
        assert c in s.batches && BatchOk(s.batches[c], s.writer, c, Of(InFlight(s), c));
      }
    }
  }

  lemma RangeJoin(a: nat, b: nat, c: nat)
    requires a <= b <= c
    ensures Range(a, b) + Range(b, c) == Range(a, c)
  {
  }

  /** The group in hand is the next stretch of its batch. */
  lemma GroupIsNext(s: State, group: seq<Packet>, others: seq<Packet>)
    requires Inv(s) && group != [] && OneBatch(group) && InFlight(s) == group + others
    requires group[0].batch in s.batches
    ensures var t := s.batches[group[0].batch];
            Of(group, group[0].batch) == Range(t.settled, t.settled + |group|)
  {
    var b := group[0].batch;
    var t := s.batches[b];
    OfConcat(group, others, b);
    OfGroup(group, b);
    assert BatchOk(t, s.writer, b, Of(InFlight(s), b));
    assert Of(group, b) == Of(InFlight(s), b)[..|group|];
  }

  lemma StaleBatch(t: Batch, w: Writer, b: nat, flying: seq<nat>)
    requires BatchOk(t, w, b, flying) && w.Checked? && w.group != [] && w.group[0].batch == b
    ensures BatchOk(t.(stale := true), Settling(w.group, w.rest, Failed(ChannelNotReady), false), b, flying)
  {
  }

  lemma StaleBatches(s: State)
    requires Inv(s) && Enabled(s, CheckCurrent(false))
    ensures BatchesOk(Next(s, CheckCurrent(false)))
  {
    hide Of, BatchOk, Conserved, LogOk;
    var s', w := Next(s, CheckCurrent(false)), s.writer;
    var b := w.group[0].batch;
    assert InFlight(s') == InFlight(s);
    StaleBatch(s.batches[b], w, b, Of(InFlight(s), b));
    BatchMoves(s, s', b);
  }

  lemma StaleInv(s: State)
    requires Inv(s) && Enabled(s, CheckCurrent(false))
    ensures Inv(Next(s, CheckCurrent(false)))
  {
    hide Of, BatchesOk;
    assert InFlight(Next(s, CheckCurrent(false))) == InFlight(s);
    StaleBatches(s);
  }

  lemma HandOverBatch(t: Batch, w: Writer, b: nat, flying: seq<nat>)
    requires BatchOk(t, w, b, flying) && w.Checked? && w.group != [] && w.group[0].batch == b
    ensures BatchOk(t.(handed := t.handed + Range(t.settled, t.settled + |w.group|)), InWrite(w.group, w.rest), b, flying)
  {
    RangeJoin(0, t.settled, t.settled + |w.group|);
  }

  lemma HandOverBatches(s: State)
    requires Inv(s) && Enabled(s, CheckCurrent(true))
    ensures BatchesOk(Next(s, CheckCurrent(true)))
  {
    hide Of, BatchOk, Conserved, LogOk;
    var s', w := Next(s, CheckCurrent(true)), s.writer;
    var b := w.group[0].batch;
    assert InFlight(s) == w.group + (w.rest + s.queue) && InFlight(s') == InFlight(s);
    GroupIsNext(s, w.group, w.rest + s.queue);
    HandOverBatch(s.batches[b], w, b, Of(InFlight(s), b));
    BatchMoves(s, s', b);
  }

  lemma HandOverInv(s: State)
    requires Inv(s) && Enabled(s, CheckCurrent(true))
    ensures Inv(Next(s, CheckCurrent(true)))
  {
    hide Of, BatchesOk;
    assert InFlight(Next(s, CheckCurrent(true))) == InFlight(s);
    HandOverBatches(s);
  }

  lemma WriteReturnsBatch(t: Batch, w: Writer, b: nat, flying: seq<nat>, error: Option<nat>)
    requires BatchOk(t, w, b, flying) && w.InWrite? && w.group != [] && w.group[0].batch == b
    ensures BatchOk(t.(writeErrors := t.writeErrors + if error.Some? then [error.value] else []), Settling(w.group, w.rest, Written(error), false), b, flying)
  {
  }

  lemma WriteReturnsBatches(s: State, error: Option<nat>)
    requires Inv(s) && Enabled(s, WriteReturns(error))
    ensures BatchesOk(Next(s, WriteReturns(error)))
  {
    hide Of, BatchOk, Conserved, LogOk;
    var s', w := Next(s, WriteReturns(error)), s.writer;
    var b := w.group[0].batch;
    assert InFlight(s') == InFlight(s);
    WriteReturnsBatch(s.batches[b], w, b, Of(InFlight(s), b), error);
    BatchMoves(s, s', b);
  }

  lemma WriteReturnsInv(s: State, error: Option<nat>)
    requires Inv(s) && Enabled(s, WriteReturns(error))
    ensures Inv(Next(s, WriteReturns(error)))
  {
    hide Of, BatchesOk;
    assert InFlight(Next(s, WriteReturns(error))) == InFlight(s);
    WriteReturnsBatches(s, error);
  }

  lemma OfFirst(packets: seq<Packet>, b: nat)
    requires packets != []
    ensures packets[0].batch == b ==> Of(packets, b) == [packets[0].index] + Of(packets[1..], b)
    ensures packets[0].batch != b ==> Of(packets, b) == Of(packets[1..], b)
  {
  }

  /** Completing the first packet in flight settles the next packet of its batch. */
  lemma CompleteBatch(t: Batch, w: Writer, b: nat, flying: seq<nat>, error: Option<WriteError>)
    requires BatchOk(t, w, b, flying) && flying != []
    requires w.Settling? && !w.releasing && w.group != [] && w.group[0].batch == b && error == ErrorOf(w.verdict)
    requires w.verdict == Skipped ==> t.err.Some?
    ensures BatchOk(Complete(t, error).(settled := t.settled + 1), w.(releasing := true), b, flying[1..])
    ensures flying[0] == t.settled < t.producer.enqueued
  {
  }

  /** The first packet of the group is the first in flight. */
  lemma FirstInFlight(group: seq<Packet>, rest: seq<Packet>, queue: seq<Packet>)
    requires group != []
    ensures var flight := (group + rest) + queue;
            flight[0] == group[0] && flight[1..] == (group[1..] + rest) + queue
  {
  }

  lemma CompleteBatches(s: State)
    requires Inv(s) && Enabled(s, CompleteOne)
    ensures BatchesOk(Next(s, CompleteOne))
    ensures var p := s.writer.group[0]; p.index == s.batches[p.batch].settled < s.batches[p.batch].producer.enqueued
  {
    hide Of, BatchOk, Conserved, LogOk;
    var s', w := Next(s, CompleteOne), s.writer;
    var p := w.group[0];
    var b := p.batch;
    FirstInFlight(w.group, w.rest, s.queue);
    OfFirst(InFlight(s), b);
    assert Of(InFlight(s'), b) == Of(InFlight(s), b)[1..];
    forall c | c != b ensures Of(InFlight(s'), c) == Of(InFlight(s), c) {
      OfFirst(InFlight(s), c);
    }
    CompleteBatch(s.batches[b], w, b, Of(InFlight(s), b), ErrorOf(w.verdict));
    BatchMoves(s, s', b);
  }

  lemma CompleteInv(s: State)
    requires Inv(s) && Enabled(s, CompleteOne)
    ensures Inv(Next(s, CompleteOne))
  {
    hide Of, BatchesOk, LogOk;
    var s', w := Next(s, CompleteOne), s.writer;
    FirstInFlight(w.group, w.rest, s.queue);
    CompleteBatches(s);
    CompleteLog(s, s', w.group[0]);
  }

  lemma CompleteLog(s: State, s': State, p: Packet)
    requires LogOk(s) && p.batch in s.batches && !Logged(s.batches[p.batch], p.index)
    requires s'.completions == s.completions + [p]
    requires forall b :: b in s.batches ==> b in s'.batches
    requires forall b, i: nat :: b in s.batches && Logged(s.batches[b], i) ==> Logged(s'.batches[b], i)
    requires Logged(s'.batches[p.batch], p.index)
    ensures LogOk(s')
  {
  }

  // ---------------------------------------------------------------- producers

  lemma {:induction false} OfAbsent(packets: seq<Packet>, b: nat)
    requires forall p :: p in packets ==> p.batch != b
    ensures Of(packets, b) == []
  {
    if packets != [] {
      OfAbsent(packets[1..], b);
    }
  }

  /** A producer step inside one batch that leaves the writer and the queue alone. */
  lemma ProducerMoves(s: State, s': State, b: nat)
    requires Inv(s) && b in s.batches && b in s'.batches
    requires s'.batches == s.batches[b := s'.batches[b]] && s'.writer == s.writer && s'.queue == s.queue
    requires BatchOk(s'.batches[b], s.writer, b, Of(InFlight(s), b))
    requires s.batches[b].err.Some? ==> s'.batches[b].err.Some?
    ensures WriterOk(s') && BatchesOk(s')
  {
    hide Of, BatchOk;
    assert s'.batches.Keys == s.batches.Keys;
    BatchMoves(s, s', b);
  }

  /** The moves of a producer that complete nothing and push nothing. */
  lemma ProducerBatch(t: Batch, w: Writer, b: nat, flying: seq<nat>)
    requires BatchOk(t, w, b, flying)
    ensures var k := t.producer.enqueued;
            && (t.producer.Acquiring? ==> BatchOk(t.(producer := Holding(k)), w, b, flying))
            && (t.producer.Acquiring? ==> BatchOk(t.(producer := Failing(k, k)), w, b, flying))
            && (t.producer.Holding? ==> BatchOk(t.(producer := Returning(k)), w, b, flying))
            && (t.producer.Returning? ==> BatchOk(t.(producer := Failing(k, k)), w, b, flying))
            && (t.producer.Awaiting? && t.done.Some? ==> BatchOk(t.(producer := Returned(k, t.done.value)), w, b, flying))
    ensures t.settled <= t.producer.enqueued <= FailedTo(t)
  {
  }

  lemma FailBatch(t: Batch, w: Writer, b: nat, flying: seq<nat>)
    requires BatchOk(t, w, b, flying) && t.producer.Failing?
    ensures var p := t.producer;
            BatchOk(Complete(t, Some(ClientClosed)).(producer := if p.next + 1 < t.size then Failing(p.enqueued, p.next + 1)
                                                   else Awaiting(p.enqueued)), w, b, flying)
    ensures t.settled <= t.producer.enqueued <= t.producer.next < t.size
  {
  }

  /** The writer knows nothing of a batch that has not begun. */
  lemma StrangerToWriter(s: State, b: nat)
    requires WriterOk(s) && b !in s.batches
    ensures !InHand(s.writer, b) && Ahead(s.writer, b) == 0 && !Unreported(s.writer, b)
    ensures Of(InFlight(s), b) == []
  {
    OfAbsent(InFlight(s), b);
    if (s.writer.Checked? || s.writer.InWrite?) && s.writer.group != [] {
      assert InFlight(s)[0] == s.writer.group[0];
    }
  }

  lemma NewBatch(w: Writer, b: nat, size: nat)
    requires size > 0 && !InHand(w, b) && Ahead(w, b) == 0 && !Unreported(w, b)
    ensures BatchOk(Batch(size, size, None, None, Acquiring(0), 0, [], [], false, []), w, b, [])
  {
    assert Range(0, 0) == [];
  }

  lemma BeginInv(s: State, b: nat, size: nat)
    requires Inv(s) && Enabled(s, Begin(b, size))
    ensures Inv(Next(s, Begin(b, size)))
  {
    hide Of, BatchOk, Ahead, InHand, Unreported;
    var s' := Next(s, Begin(b, size));
    assert InFlight(s') == InFlight(s);
    StrangerToWriter(s, b);
    NewBatch(s.writer, b, size);
    BatchMoves(s, s', b);
  }

  lemma AcquireInv(s: State, b: nat)
    requires Inv(s) && Enabled(s, Acquire(b))
    ensures Inv(Next(s, Acquire(b)))
  {
    hide Of, BatchOk;
    var s' := Next(s, Acquire(b));
    ProducerBatch(s.batches[b], s.writer, b, Of(InFlight(s), b));
    ProducerMoves(s, s', b);
  }

  lemma SeeStoppedInv(s: State, b: nat)
    requires Inv(s) && Enabled(s, SeeStopped(b))
    ensures Inv(Next(s, SeeStopped(b)))
  {
    hide Of, BatchOk;
    var s' := Next(s, SeeStopped(b));
    ProducerBatch(s.batches[b], s.writer, b, Of(InFlight(s), b));
    ProducerMoves(s, s', b);
  }

  lemma ReturnSlotInv(s: State, b: nat)
    requires Inv(s) && Enabled(s, ReturnSlot(b))
    ensures Inv(Next(s, ReturnSlot(b)))
  {
    hide Of, BatchOk;
    var s' := Next(s, ReturnSlot(b));
    ProducerBatch(s.batches[b], s.writer, b, Of(InFlight(s), b));
    ProducerMoves(s, s', b);
  }

  lemma FailNextBatches(s: State, b: nat)
    requires Inv(s) && Enabled(s, FailNext(b))
    ensures WriterOk(Next(s, FailNext(b))) && BatchesOk(Next(s, FailNext(b)))
    ensures var t := s.batches[b]; t.settled <= t.producer.enqueued <= t.producer.next < t.size
  {
    hide Of, BatchOk, Conserved, LogOk, WriterOk;
    FailBatch(s.batches[b], s.writer, b, Of(InFlight(s), b));
    ProducerMoves(s, Next(s, FailNext(b)), b);
  }

  lemma FailNextInv(s: State, b: nat)
    requires Inv(s) && Enabled(s, FailNext(b))
    ensures Inv(Next(s, FailNext(b)))
  {
    hide Of, BatchesOk, WriterOk, LogOk;
    FailNextBatches(s, b);
    CompleteLog(s, Next(s, FailNext(b)), Packet(b, s.batches[b].producer.next));
  }

  lemma CollectInv(s: State, b: nat)
    requires Inv(s) && Enabled(s, Collect(b))
    ensures Inv(Next(s, Collect(b)))
  {
    hide Of, BatchOk;
    var s' := Next(s, Collect(b));
    ProducerBatch(s.batches[b], s.writer, b, Of(InFlight(s), b));
    ProducerMoves(s, s', b);
  }

  lemma PushRefusedInv(s: State, b: nat)
    requires Inv(s) && Enabled(s, Push(b)) && s.closed
    ensures Inv(Next(s, Push(b)))
  {
    hide Of, BatchOk;
    var s' := Next(s, Push(b));
    ProducerBatch(s.batches[b], s.writer, b, Of(InFlight(s), b));
    ProducerMoves(s, s', b);
  }

  lemma PushBatch(t: Batch, w: Writer, b: nat, flying: seq<nat>)
    requires BatchOk(t, w, b, flying) && t.producer.Holding?
    ensures BatchOk(t.(producer := AfterPush(t.producer.enqueued, t.size)), w, b, flying + [t.producer.enqueued])
  {
  }

  lemma PushBatches(s: State, b: nat)
    requires Inv(s) && Enabled(s, Push(b)) && !s.closed
    ensures BatchesOk(Next(s, Push(b)))
  {
    hide Of, BatchOk, Conserved, LogOk;
    var s', p := Next(s, Push(b)), Packet(b, s.batches[b].producer.enqueued);
    assert InFlight(s') == InFlight(s) + [p];
    OfAppend(InFlight(s), p, b);
    forall c | c != b ensures Of(InFlight(s'), c) == Of(InFlight(s), c) {
      OfAppend(InFlight(s), p, c);
    }
    PushBatch(s.batches[b], s.writer, b, Of(InFlight(s), b));
    assert s'.batches.Keys == s.batches.Keys;
    BatchMoves(s, s', b);
  }

  lemma PushInv(s: State, b: nat)
    requires Inv(s) && Enabled(s, Push(b)) && !s.closed
    ensures Inv(Next(s, Push(b)))
  {
    hide Of, BatchesOk;
    var s', p := Next(s, Push(b)), Packet(b, s.batches[b].producer.enqueued);
    assert InFlight(s') == InFlight(s) + [p];
    PushBatches(s, b);
  }

  lemma OfAppend(packets: seq<Packet>, p: Packet, c: nat)
    ensures Of(packets + [p], c) == if c == p.batch then Of(packets, c) + [p.index] else Of(packets, c)
  {
    OfConcat(packets, [p], c);
    OfSingle(p, c);
  }

  lemma OfSingle(p: Packet, c: nat)
    ensures Of([p], c) == if p.batch == c then [p.index] else []
  {
  }

  // ---------------------------------------------------------------- every step

  lemma StepInv(s: State, a: Action)
    requires Inv(s) && Enabled(s, a)
    ensures Inv(Next(s, a))
  {
    hide Inv, Enabled, Next;
    match a
    case Begin(b, size) => BeginInv(s, b, size);
    case Acquire(b) => AcquireInv(s, b);
    case SeeStopped(b) => SeeStoppedInv(s, b);
    case Push(b) => if s.closed { PushRefusedInv(s, b); } else { PushInv(s, b); }
    case ReturnSlot(b) => ReturnSlotInv(s, b);
    case FailNext(b) => FailNextInv(s, b);
    case Collect(b) => CollectInv(s, b);
    case PopNothing => EmptyInv(s, a);
    case TestEmpty => EmptyInv(s, a);
    case PopAll => PopInv(s);
    case SeeClosed => SeeClosedInv(s);
    case Inspect => InspectInv(s);
    case CheckCurrent(current) => if current { HandOverInv(s); } else { StaleInv(s); }
    case WriteReturns(error) => WriteReturnsInv(s, error);
    case CompleteOne => CompleteInv(s);
    case ReleaseOne => ReleaseInv(s);
    case NextGroup => NextGroupInv(s);
    case CloseQueue => FlagsInv(s);
    case StopProducers => FlagsInv(s);
  }

  lemma FlagsInv(s: State)
    requires Inv(s)
    ensures Inv(Next(s, CloseQueue)) && Inv(Next(s, StopProducers))
  {
    hide Of, BatchOk;
    assert InFlight(Next(s, CloseQueue)) == InFlight(s) && InFlight(Next(s, StopProducers)) == InFlight(s);
  }

  // ---------------------------------------------------------------- runs

  ghost predicate Follows(s: State, s': State) {
    exists a :: Enabled(s, a) && s' == Next(s, a)
  }

  ghost predicate IsRun(capacity: nat, states: seq<State>) {
    && states != [] && states[0] == Initial(capacity)
    && forall i :: 0 < i < |states| ==> Follows(states[i - 1], states[i])
  }

  lemma CapacityFixed(s: State, a: Action)
    requires Enabled(s, a)
    ensures Next(s, a).capacity == s.capacity
  {
  }

  lemma {:induction false} RunInv(capacity: nat, states: seq<State>, i: nat)
    requires IsRun(capacity, states) && i < |states|
    ensures Inv(states[i]) && states[i].capacity == capacity
    decreases i
  {
    hide Inv, Enabled, Next;
    if i == 0 {
      InitialInv(capacity);
    } else {
      RunInv(capacity, states, i - 1);
      assert Follows(states[i - 1], states[i]);
      var a :| Enabled(states[i - 1], a) && states[i] == Next(states[i - 1], a);
      StepInv(states[i - 1], a);
      CapacityFixed(states[i - 1], a);
    }
  }

  /** What is ahead of the completions is still in flight. */
  lemma AheadIsFlying(s: State, b: nat)
    requires Inv(s)
    ensures Ahead(s.writer, b) <= |Of(InFlight(s), b)|
  {
    hide BatchOk;
    var w := s.writer;
    if Ahead(w, b) > 0 {
      var group := if w.Settling? && w.releasing then w.group[1..] else w.group;
      assert InFlight(s) == group + (w.rest + s.queue);
      OfConcat(group, w.rest + s.queue, b);
      OfGroup(group, b);
    }
  }

  /** A batch whose result is in: nothing of it is on its way, so its completion object
      may be reused; and a nil result means that every packet was handed to the session
      in order and no session write of it failed. */
  lemma ResultIsFinal(s: State, b: nat)
    requires Inv(s) && b in s.batches && s.batches[b].done.Some?
    ensures var t := s.batches[b];
            && Of(InFlight(s), b) == []
            && (t.done == Some(None) ==> t.handed == Range(0, t.size) && t.writeErrors == [])
  {
    hide Of;
    var t := s.batches[b];
    AheadIsFlying(s, b);
    assert BatchOk(t, s.writer, b, Of(InFlight(s), b));
    assert t.remaining == 0;
    if t.err.None? && t.writeErrors != [] {
      UnreportedIsFlying(s, b);
    }
  }

  lemma UnreportedIsFlying(s: State, b: nat)
    requires Inv(s) && Unreported(s.writer, b)
    ensures Of(InFlight(s), b) != []
  {
    hide BatchOk;
    assert InFlight(s)[0] == s.writer.group[0];
    OfFirst(InFlight(s), b);
  }

  /** In every reachable state: held slots are exactly the packets between acquisition
      and release, no packet has completed twice, what the session got of a batch is a
      prefix of it in order, a collected nil result is the whole batch, written without
      error, and any other result is the first error a packet of it was completed with. */
  lemma OutboundConservation(capacity: nat, states: seq<State>, i: nat)
    requires IsRun(capacity, states) && i < |states|
    ensures var s := states[i];
            && s.slots == |s.holders| + |s.queue| + Held(s.writer) <= capacity
            && Distinct(s.completions)
            && (forall b :: b in s.batches ==> s.batches[b].handed == Range(0, |s.batches[b].handed|))
            && (forall b :: b in s.batches && s.batches[b].producer.Returned? && s.batches[b].producer.result.None? ==>
                  s.batches[b].handed == Range(0, s.batches[b].size) && s.batches[b].writeErrors == [])
            && (forall b :: b in s.batches && s.batches[b].producer.Returned? ==>
                  Of(InFlight(s), b) == [] && s.batches[b].producer.result == FirstOf(s.batches[b].errors))
  {
    RunInv(capacity, states, i);
    var s := states[i];
    forall b | b in s.batches
      ensures s.batches[b].handed == Range(0, |s.batches[b].handed|)
      ensures s.batches[b].producer.Returned? ==>
                && s.batches[b].done == Some(s.batches[b].producer.result) && Of(InFlight(s), b) == []
                && s.batches[b].producer.result == FirstOf(s.batches[b].errors)
                && (s.batches[b].producer.result.None? ==>
                      s.batches[b].handed == Range(0, s.batches[b].size) && s.batches[b].writeErrors == [])
    {
      hide Of;
      assert BatchOk(s.batches[b], s.writer, b, Of(InFlight(s), b));
      if s.batches[b].done.Some? {
        ResultIsFinal(s, b);
      }
    }
  }

  /** The guards of the model hide nothing: a push made with a slot never finds an open
      queue full, a slot to be released is always there, and every packet the writer has
      belongs to a batch that has begun. */
  lemma NeverStuck(capacity: nat, states: seq<State>, i: nat)
    requires IsRun(capacity, states) && i < |states|
    ensures var s := states[i];
            && (forall b :: b in s.batches && s.batches[b].producer.Holding? ==> Enabled(s, Push(b)))
            && (forall b :: b in s.batches && s.batches[b].producer.Returning? ==> Enabled(s, ReturnSlot(b)))
            && (s.writer.Grouping? ==> Enabled(s, if s.writer.rest != [] then Inspect else NextGroup))
            && (s.writer.Checked? ==> Enabled(s, CheckCurrent(true)) && Enabled(s, CheckCurrent(false)))
            && (s.writer.InWrite? ==> forall error :: Enabled(s, WriteReturns(error)))
            && (s.writer.Settling? ==>
                  Enabled(s, if s.writer.group == [] then NextGroup
                             else if s.writer.releasing then ReleaseOne else CompleteOne))
  {
    hide Inv, Enabled, Next;
    RunInv(capacity, states, i);
    ProducersGo(states[i]);
    WriterGoes(states[i]);
  }

  lemma ProducersGo(s: State)
    requires Inv(s)
    ensures forall b :: b in s.batches && s.batches[b].producer.Holding? ==> Enabled(s, Push(b))
    ensures forall b :: b in s.batches && s.batches[b].producer.Returning? ==> Enabled(s, ReturnSlot(b))
  {
    hide BatchesOk, WriterOk, LogOk;
    assert forall b :: b in s.holders ==> |s.holders| >= 1;
  }

  lemma WriterGoes(s: State)
    requires Inv(s)
    ensures s.writer.Grouping? ==> Enabled(s, if s.writer.rest != [] then Inspect else NextGroup)
    ensures s.writer.Checked? ==> Enabled(s, CheckCurrent(true)) && Enabled(s, CheckCurrent(false))
    ensures s.writer.InWrite? ==> forall error :: Enabled(s, WriteReturns(error))
    ensures s.writer.Settling? ==>
              Enabled(s, if s.writer.group == [] then NextGroup
                         else if s.writer.releasing then ReleaseOne else CompleteOne)
  {
    hide BatchesOk, LogOk;
    if s.writer.Checked? || s.writer.InWrite? {
      assert InFlight(s)[0] == s.writer.group[0];
    }
    if s.writer.Grouping? && s.writer.rest != [] {
      assert InFlight(s)[0] == s.writer.rest[0];
    }
  }

  // ---------------------------------------------------------------- no spurious errors

  /** An action that is a reason for a batch to fail. */
  predicate Disturbs(a: Action) {
    a.CloseQueue? || a.StopProducers? || a == CheckCurrent(false) || (a.WriteReturns? && a.error.Some?)
  }

  /** Nothing has gone wrong so far. */
  ghost predicate Calm(s: State) {
    && !s.closed && !s.stopped
    && (forall b :: b in s.batches ==> s.batches[b].err.None? && !s.batches[b].producer.Failing? && !s.batches[b].producer.Returning?)
    && (s.writer.Settling? ==> s.writer.verdict == Written(None))
  }

  lemma CalmStep(s: State, a: Action)
    requires Calm(s) && Enabled(s, a) && !Disturbs(a)
    ensures Calm(Next(s, a))
  {
  }

  ghost predicate IsCalmRun(capacity: nat, states: seq<State>, actions: seq<Action>) {
    && |states| == |actions| + 1 && states[0] == Initial(capacity)
    && forall i :: 0 <= i < |actions| ==>
         !Disturbs(actions[i]) && Enabled(states[i], actions[i]) && states[i + 1] == Next(states[i], actions[i])
  }

  /** A batch fails only if the client closes, a packet has gone stale or a session write
      fails: in a run without those every collected result is nil. */
  lemma {:induction false} NoSpuriousFailure(capacity: nat, states: seq<State>, actions: seq<Action>, i: nat)
    requires IsCalmRun(capacity, states, actions) && i <= |actions|
    ensures Calm(states[i])
    ensures Inv(states[i])
    ensures forall b :: b in states[i].batches && states[i].batches[b].producer.Returned? ==>
              states[i].batches[b].producer.result.None?
    decreases i
  {
    if i == 0 {
      InitialInv(capacity);
    } else {
      NoSpuriousFailure(capacity, states, actions, i - 1);
      assert states[i - 1 + 1] == Next(states[i - 1], actions[i - 1]);
      CalmStep(states[i - 1], actions[i - 1]);
      StepInv(states[i - 1], actions[i - 1]);
    }
    CalmResults(states[i]);
  }

  lemma CalmResults(s: State)
    requires Calm(s) && Inv(s)
    ensures forall b :: b in s.batches && s.batches[b].producer.Returned? ==> s.batches[b].producer.result.None?
  {
    hide Of;
    forall b | b in s.batches && s.batches[b].producer.Returned? ensures s.batches[b].producer.result.None? {
      assert BatchOk(s.batches[b], s.writer, b, Of(InFlight(s), b));
    }
  }
}
