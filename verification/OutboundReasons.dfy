/** Why batches fail: every error a packet is completed with is true of the run so far. */
module OutboundReasons {
  import opened Bytes
  import opened OutboundWriter
  import opened OutboundSafety

  /** The client has begun to close. */
  predicate Closing(s: State) {
    s.closed || s.stopped
  }

  /** The error is one that really happened to batch t. */
  predicate True(s: State, t: Batch, e: WriteError) {
    match e
    case ClientClosed => Closing(s)
    case ChannelNotReady => t.stale
    case SessionFailed(n) => n in t.writeErrors
  }

  ghost predicate BatchReasons(s: State, t: Batch) {
    && (forall i :: 0 <= i < |t.errors| ==> True(s, t, t.errors[i]))
    && (t.producer.Returning? || t.producer.Failing? ==> Closing(s))
  }

  /** What the writer is about to complete packets with is true too. */
  ghost predicate WriterReasons(s: State) {
    s.writer.Settling? ==>
      forall p :: p in s.writer.group && p.batch in s.batches && ErrorOf(s.writer.verdict).Some? ==>
        True(s, s.batches[p.batch], ErrorOf(s.writer.verdict).value)
  }

  ghost predicate Reasons(s: State) {
    WriterReasons(s) && forall b :: b in s.batches ==> BatchReasons(s, s.batches[b])
  }

  predicate ByProducer(a: Action) {
    a.Begin? || a.Acquire? || a.SeeStopped? || a.Push? || a.ReturnSlot? || a.FailNext? || a.Collect?
  }

  lemma GroupKnown(s: State)
    requires Inv(s) && s.writer.Settling?
    ensures forall p :: p in s.writer.group ==> p.batch in s.batches
  {
    hide BatchesOk, LogOk, Conserved;
    var group := s.writer.group;
    forall p | p in group ensures p.batch in s.batches {
      if p != group[0] {
        assert p in group[1..];
      }
      assert p == group[0] || p in InFlight(s);
    }
  }

  /** A step that leaves the writer and the flags alone, and of the batches keeps what was
      found out. */
  lemma ProducerKeeps(s: State, s': State)
    requires Inv(s) && Reasons(s) && s'.writer == s.writer && s'.closed == s.closed && s'.stopped == s.stopped
    requires forall b :: b in s.batches ==>
               && b in s'.batches && s'.batches[b].stale == s.batches[b].stale
               && s'.batches[b].writeErrors == s.batches[b].writeErrors
    requires forall b :: b in s'.batches ==> BatchReasons(s', s'.batches[b])
    ensures Reasons(s')
  {
    hide Inv, BatchReasons;
    if s.writer.Settling? {
      GroupKnown(s);
    }
  }

  lemma BatchStep(s: State, s': State, t: Batch, t': Batch, error: Option<WriteError>)
    requires BatchReasons(s, t) && Closing(s) == Closing(s') && t'.stale == t.stale && t'.writeErrors == t.writeErrors
    requires t'.errors == t.errors + (if error.Some? then [error.value] else [])
    requires error.Some? ==> True(s, t, error.value)
    requires t'.producer.Returning? || t'.producer.Failing? ==> Closing(s)
    ensures BatchReasons(s', t')
  {
  }

  lemma ProducerReasons(s: State, a: Action)
    requires Inv(s) && Reasons(s) && Enabled(s, a) && ByProducer(a)
    ensures Reasons(Next(s, a))
  {
    hide Inv, NextWriter, GroupLength, Of, BatchReasons, WriterReasons;
    var s' := Next(s, a);
    forall b | b in s'.batches ensures BatchReasons(s', s'.batches[b]) {
      if b in s.batches {
        ProducerClosing(s, s.batches[b]);
        BatchStep(s, s', s.batches[b], s'.batches[b], if a == FailNext(b) then Some(ClientClosed) else None);
      } else {
        FreshReasons(s', s'.batches[b]);
      }
    }
    ProducerKeeps(s, s');
  }

  lemma ProducerClosing(s: State, t: Batch)
    requires BatchReasons(s, t)
    ensures t.producer.Returning? || t.producer.Failing? ==> Closing(s)
  {
  }

  lemma FreshReasons(s: State, t: Batch)
    requires t.errors == [] && t.producer.Acquiring?
    ensures BatchReasons(s, t)
  {
  }

  lemma CheckReasons(s: State, current: bool)
    requires Inv(s) && Reasons(s) && Enabled(s, CheckCurrent(current))
    ensures Reasons(Next(s, CheckCurrent(current)))
  {
    hide Of, BatchesOk, LogOk, Conserved;
    var s' := Next(s, CheckCurrent(current));
    forall b | b in s'.batches ensures BatchReasons(s', s'.batches[b]) {
      assert BatchReasons(s, s.batches[b]);
    }
  }

  lemma ReturnReasons(s: State, error: Option<nat>)
    requires Inv(s) && Reasons(s) && Enabled(s, WriteReturns(error))
    ensures Reasons(Next(s, WriteReturns(error)))
  {
    hide Of, BatchesOk, LogOk, Conserved;
    var s' := Next(s, WriteReturns(error));
    forall b | b in s'.batches ensures BatchReasons(s', s'.batches[b]) {
      assert BatchReasons(s, s.batches[b]);
    }
  }

  lemma CompleteReasons(s: State)
    requires Reasons(s) && Enabled(s, CompleteOne)
    ensures Reasons(Next(s, CompleteOne))
  {
    var s' := Next(s, CompleteOne);
    assert s.writer.group[0] in s.writer.group;
    forall b | b in s'.batches ensures BatchReasons(s', s'.batches[b]) {
      assert BatchReasons(s, s.batches[b]);
    }
  }

  lemma QuietStepReasons(s: State, a: Action)
    requires Reasons(s) && Enabled(s, a)
    requires a.PopNothing? || a.TestEmpty? || a.PopAll? || a.SeeClosed? || a.Inspect? || a.ReleaseOne? || a.NextGroup? || a.CloseQueue? || a.StopProducers?
    ensures Reasons(Next(s, a))
  {
    hide NextProducer, GroupLength, Of;
    var s' := Next(s, a);
    forall b | b in s'.batches ensures BatchReasons(s', s'.batches[b]) {
      assert BatchReasons(s, s.batches[b]);
    }
  }

  lemma StepReasons(s: State, a: Action)
    requires Inv(s) && Reasons(s) && Enabled(s, a)
    ensures Reasons(Next(s, a))
  {
    hide Inv, Reasons, Next, Enabled;
    if ByProducer(a) {
      ProducerReasons(s, a);
    } else if a.CheckCurrent? {
      CheckReasons(s, a.current);
    } else if a.WriteReturns? {
      ReturnReasons(s, a.error);
    } else if a.CompleteOne? {
      CompleteReasons(s);
    } else {
      QuietStepReasons(s, a);
    }
  }

  lemma {:induction false} RunReasons(capacity: nat, states: seq<State>, i: nat)
    requires IsRun(capacity, states) && i < |states|
    ensures Reasons(states[i])
    decreases i
  {
    hide Inv, Reasons, Next, Enabled;
    if i == 0 {
      InitialReasons(capacity);
    } else {
      RunReasons(capacity, states, i - 1);
      RunInv(capacity, states, i - 1);
      assert Follows(states[i - 1], states[i]);
      var a :| Enabled(states[i - 1], a) && states[i] == Next(states[i - 1], a);
      StepReasons(states[i - 1], a);
    }
  }

  lemma InitialReasons(capacity: nat)
    ensures Reasons(Initial(capacity))
  {
  }

  /** In every run, the result a caller gets tells the truth: closed only if the client was
      closing, not ready only if the batch's ticket was found out of date, a session's error
      only if a session write of this batch returned it. */
  lemma ResultIsTrue(capacity: nat, states: seq<State>, i: nat, b: nat)
    requires IsRun(capacity, states) && i < |states| && b in states[i].batches
    requires states[i].batches[b].producer.Returned? && states[i].batches[b].producer.result.Some?
    ensures match states[i].batches[b].producer.result.value
            case ClientClosed => states[i].closed || states[i].stopped
            case ChannelNotReady => states[i].batches[b].stale
            case SessionFailed(n) => n in states[i].batches[b].writeErrors
  {
    hide Inv, Next, Enabled;
    RunReasons(capacity, states, i);
    OutboundConservation(capacity, states, i);
    assert BatchReasons(states[i], states[i].batches[b]);
  }
}
