/** Whether the outgoing path can come to a standstill with callers waiting. It can, in one
    way: a packet pushed, and the queue closed, between the writer's empty pop and its look
    at whether the queue is closed. Otherwise there is always a step to take. */
module OutboundProgress {
  import opened Bytes
  import opened OutboundWriter
  import opened OutboundSafety

  /** The writer has exited, or is about to, and packets are left in the queue. */
  predicate Abandoned(s: State) {
    s.queue != [] && (s.writer.Exited? || (s.writer.FoundEmpty? && s.closed))
  }

  /** A step of a caller or of the writer that gets something done. */
  predicate Progress(s: State, a: Action) {
    && Enabled(s, a)
    && !a.Begin? && !a.CloseQueue? && !a.StopProducers? && !a.PopNothing?
    && (a.TestEmpty? ==> !s.closed && s.queue != [])
  }

  lemma WriterHasAStep(s: State)
    requires Inv(s) && !Abandoned(s) && (InFlight(s) != [] || Held(s.writer) > 0)
    ensures exists a :: Progress(s, a)
  {
    hide BatchesOk, LogOk, Of;
    WriterGoes(s);
    match s.writer
    case Idle => assert Progress(s, PopAll);
    case FoundEmpty => assert Progress(s, TestEmpty);
    case Exited =>
    case Popped(_) => assert Progress(s, SeeClosed);
    case Grouping(rest) => assert Progress(s, if rest != [] then Inspect else NextGroup);
    case Checked(_, _) => assert Progress(s, CheckCurrent(true));
    case InWrite(_, _) => assert Progress(s, WriteReturns(None));
    case Settling(group, _, _, releasing) =>
      assert Progress(s, if group == [] then NextGroup else if releasing then ReleaseOne else CompleteOne);
  }

  lemma HolderHasAStep(s: State, b: nat)
    requires Inv(s) && b in s.holders
    ensures exists a :: Progress(s, a)
  {
    hide BatchesOk, LogOk, Of, WriterOk;
    ProducersGo(s);
    if s.batches[b].producer.Holding? {
      assert Progress(s, Push(b));
    } else {
      assert Progress(s, ReturnSlot(b));
    }
  }

  lemma AcquiringHasAStep(s: State, b: nat)
    requires Inv(s) && s.capacity > 0 && !Abandoned(s) && b in s.batches && s.batches[b].producer.Acquiring?
    ensures exists a :: Progress(s, a)
  {
    hide BatchesOk, LogOk, Of, WriterOk;
    if s.slots < s.capacity {
      assert Progress(s, Acquire(b));
    } else if s.holders != {} {
      var c :| c in s.holders;
      HolderHasAStep(s, c);
    } else {
      WriterHasAStep(s);
    }
  }

  lemma AwaitingHasAStep(s: State, b: nat)
    requires Inv(s) && !Abandoned(s) && b in s.batches && s.batches[b].producer.Awaiting?
    ensures exists a :: Progress(s, a)
  {
    hide Of, LogOk, Conserved, WriterOk;
    var t := s.batches[b];
    assert BatchOk(t, s.writer, b, Of(InFlight(s), b));
    if t.done.Some? {
      assert Progress(s, Collect(b));
    } else {
      assert |Of(InFlight(s), b)| > 0;
      NothingOfNothing(b);
      WriterHasAStep(s);
    }
  }

  lemma NothingOfNothing(b: nat)
    ensures Of([], b) == []
  {
  }

  /** In every state of every run in which packets have not been abandoned, as long as a
      caller has not returned there is a step that gets something done. */
  lemma NoStandstill(capacity: nat, states: seq<State>, i: nat, b: nat)
    requires IsRun(capacity, states) && i < |states| && capacity > 0
    requires b in states[i].batches && !states[i].batches[b].producer.Returned? && !Abandoned(states[i])
    ensures exists a :: Progress(states[i], a)
  {
    hide Inv, IsRun, Enabled;
    RunInv(capacity, states, i);
    var s := states[i];
    match s.batches[b].producer
    case Acquiring(_) => AcquiringHasAStep(s, b);
    case Failing(_, _) => FailingHasAStep(s, b);
    case Awaiting(_) => AwaitingHasAStep(s, b);
    case _ =>
      HolderListed(s, b);
      HolderHasAStep(s, b);
  }

  lemma FailingHasAStep(s: State, b: nat)
    requires b in s.batches && s.batches[b].producer.Failing?
    ensures exists a :: Progress(s, a)
  {
    assert Progress(s, FailNext(b));
  }

  lemma HolderListed(s: State, b: nat)
    requires Inv(s) && b in s.batches && HoldsSlot(s.batches[b].producer)
    ensures b in s.holders
  {
  }

  // ---------------------------------------------------------------- abandoned packets

  lemma AbandonedStays(s: State, a: Action)
    requires Inv(s) && Abandoned(s) && (s.writer.Exited? ==> s.closed) && Enabled(s, a)
    ensures Abandoned(Next(s, a)) && Next(s, a).queue == s.queue && (Next(s, a).writer.Exited? ==> Next(s, a).closed)
  {
    hide Inv, Of, GroupLength;
  }

  lemma {:induction false} ExitedIsClosed(capacity: nat, states: seq<State>, i: nat)
    requires IsRun(capacity, states) && i < |states|
    ensures states[i].writer.Exited? ==> states[i].closed
    decreases i
  {
    hide Of, GroupLength;
    if i > 0 {
      ExitedIsClosed(capacity, states, i - 1);
      assert Follows(states[i - 1], states[i]);
      var a :| Enabled(states[i - 1], a) && states[i] == Next(states[i - 1], a);
      ExitsClosed(states[i - 1], a);
    }
  }

  lemma ExitsClosed(s: State, a: Action)
    requires Enabled(s, a) && (s.writer.Exited? ==> s.closed)
    ensures Next(s, a).writer.Exited? ==> Next(s, a).closed
  {
    hide Of, GroupLength;
  }

  /** A batch with a packet in the queue has no result yet. */
  lemma QueuedHasNoResult(s: State, p: Packet)
    requires Inv(s) && p in s.queue
    ensures p.batch in s.batches && s.batches[p.batch].done.None? && !s.batches[p.batch].producer.Returned?
  {
    hide Of, LogOk, Conserved;
    assert p in InFlight(s);
    Listed(InFlight(s), p);
    assert BatchOk(s.batches[p.batch], s.writer, p.batch, Of(InFlight(s), p.batch));
  }

  lemma {:induction false} Listed(packets: seq<Packet>, p: Packet)
    requires p in packets
    ensures |Of(packets, p.batch)| > 0
  {
    if packets[0] != p {
      Listed(packets[1..], p);
    }
  }

  /** Once packets are abandoned they stay in the queue for ever, and their callers never
      get a result: the standstill is real. */
  lemma {:induction false} AbandonedForEver(capacity: nat, states: seq<State>, i: nat, j: nat, p: Packet)
    requires IsRun(capacity, states) && i <= j < |states| && Abandoned(states[i]) && p in states[i].queue
    ensures Abandoned(states[j]) && p in states[j].queue
    ensures p.batch in states[j].batches && !states[j].batches[p.batch].producer.Returned?
    decreases j
  {
    hide Inv, Enabled, Next;
    RunInv(capacity, states, j);
    if i < j {
      AbandonedForEver(capacity, states, i, j - 1, p);
      RunInv(capacity, states, j - 1);
      ExitedIsClosed(capacity, states, j - 1);
      assert Follows(states[j - 1], states[j]);
      var a :| Enabled(states[j - 1], a) && states[j] == Next(states[j - 1], a);
      AbandonedStays(states[j - 1], a);
    }
    QueuedHasNoResult(states[j], p);
  }

  /** How it happens: the writer pops nothing, a caller takes a slot and pushes its packet,
      the queue is closed, and only then does the writer look. */
  function Hanging(capacity: nat): (states: seq<State>)
    ensures |states| == 7
  {
    var batch := Batch(1, 1, None, None, Acquiring(0), 0, [], [], false, []);
    var empty := Initial(capacity).(writer := FoundEmpty);
    var begun := empty.(batches := map[0 := batch]);
    var held := begun.(batches := map[0 := batch.(producer := Holding(0))], slots := 1, holders := {0});
    var pushed := held.(batches := map[0 := batch.(producer := Awaiting(1))], queue := [Packet(0, 0)], holders := {});
    var closed := pushed.(closed := true);
    [Initial(capacity), empty, begun, held, pushed, closed, closed.(writer := Exited)]
  }

  lemma StandstillExample(capacity: nat)
    requires capacity > 0
    ensures IsRun(capacity, Hanging(capacity))
    ensures var s := Hanging(capacity)[6];
            s.writer == Exited && s.queue == [Packet(0, 0)] && Abandoned(s) && s.batches[0].producer == Awaiting(1)
  {
    hide Enabled, Next;
    var states := Hanging(capacity);
    CallerSteps(capacity);
    WriterSteps(capacity);
    assert Follows(states[0], states[1]) && Follows(states[1], states[2]) && Follows(states[2], states[3]);
    assert Follows(states[3], states[4]) && Follows(states[4], states[5]) && Follows(states[5], states[6]);
  }

  lemma CallerSteps(capacity: nat)
    requires capacity > 0
    ensures var states := Hanging(capacity);
            && Enabled(states[1], Begin(0, 1)) && states[2] == Next(states[1], Begin(0, 1))
            && Enabled(states[2], Acquire(0)) && states[3] == Next(states[2], Acquire(0))
            && Enabled(states[3], Push(0)) && states[4] == Next(states[3], Push(0))
  {
    hide NextWriter;
    var states := Hanging(capacity);
    assert Next(states[1], Begin(0, 1)).batches == states[2].batches;
    assert Next(states[2], Acquire(0)).batches == states[3].batches && {} + {0} == {0};
    assert Next(states[3], Push(0)).batches == states[4].batches && {0} - {0} == {} && [] + [Packet(0, 0)] == [Packet(0, 0)];
  }

  lemma WriterSteps(capacity: nat)
    ensures var states := Hanging(capacity);
            && Enabled(states[0], PopNothing) && states[1] == Next(states[0], PopNothing)
            && Enabled(states[4], CloseQueue) && states[5] == Next(states[4], CloseQueue)
            && Enabled(states[5], TestEmpty) && states[6] == Next(states[5], TestEmpty)
  {
    hide NextProducer;
  }
}
