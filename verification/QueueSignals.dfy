/** Producers and one consumer around a packet queue, in every interleaving: each step
    is one critical section, one blocking receive that goes through, or a cancellation. */
module QueueSignals {
  import opened PacketQueue

  /** A producer in PushBatch: about to enter the lock, or waiting on a notFull channel. */
  datatype Producer<T> = Running(rest: seq<T>) | Waiting(rest: seq<T>, channel: nat)

  /** The consumer: running, or waiting on notEmpty. */
  datatype Consumer = Awake | Asleep

  datatype System<T> = System(
    queue: Queue<T>,
    producers: map<nat, Producer<T>>,
    consumer: Consumer,
    pushed: seq<T>,
    popped: seq<T>)

  datatype Action<T> =
    | StartPush(id: nat, batch: seq<T>)
    | PushSection(id: nat, cancelled: bool)
    | NotFullSeen(id: nat)
    | GiveUp(id: nat)
    | TryPushAll(batch: seq<T>, cancelled: bool)
    | PopSome(maximum: int)
    | FallAsleep
    | TokenSeen
    | Interrupted
    | CloseIt

  function Initial<T>(capacity: nat): System<T> {
    System(NewQueue(capacity), map[], Awake, [], [])
  }

  /** The action can happen: a wait goes on only when its channel lets it. */
  predicate Enabled<T>(s: System<T>, a: Action<T>) {
    match a
    case StartPush(id, _) => id !in s.producers
    case PushSection(id, _) => id in s.producers && s.producers[id].Running?
    case NotFullSeen(id) =>
      id in s.producers && s.producers[id].Waiting? && s.producers[id].channel < s.queue.notFull
    case GiveUp(id) => id in s.producers && s.producers[id].Waiting?
    case TryPushAll(_, _) => true
    case PopSome(_) => s.consumer == Awake
    case FallAsleep => s.consumer == Awake
    case TokenSeen => s.consumer == Asleep && (s.queue.token || s.queue.closed)
    case Interrupted => s.consumer == Asleep
    case CloseIt => true
  }

  /** The locked part of one pass of PushBatch. */
  function PushPass<T>(s: System<T>, id: nat, cancelled: bool): System<T>
    requires |s.queue.contents| <= s.queue.capacity
    requires id in s.producers && s.producers[id].Running?
  {
    var rest := s.producers[id].rest;
    if rest == [] || s.queue.closed || cancelled then s.(producers := s.producers - {id})
    else if |s.queue.contents| < s.queue.capacity then
      s.(queue := TryPush(s.queue, [rest[0]], false).0,
         producers := s.producers[id := Running(rest[1..])],
         pushed := s.pushed + [rest[0]])
    else s.(producers := s.producers[id := Waiting(rest, s.queue.notFull)])
  }

  function Next<T>(s: System<T>, a: Action<T>): System<T>
    requires |s.queue.contents| <= s.queue.capacity && Enabled(s, a)
  {
    match a
    case StartPush(id, batch) => s.(producers := s.producers[id := Running(batch)])
    case PushSection(id, cancelled) => PushPass(s, id, cancelled)
    case NotFullSeen(id) => s.(producers := s.producers[id := Running(s.producers[id].rest)])
    case GiveUp(id) => s.(producers := s.producers - {id})
    case TryPushAll(batch, cancelled) =>
      var (queue, count) := TryPush(s.queue, batch, cancelled);
      s.(queue := queue, pushed := s.pushed + batch[..count])
    case PopSome(maximum) =>
      var (queue, out) := Pop(s.queue, maximum);
      s.(queue := queue, popped := s.popped + out)
    case FallAsleep => s.(queue := Wake(s.queue), consumer := Asleep)
    case TokenSeen => s.(queue := s.queue.(token := false), consumer := Awake)
    case Interrupted => s.(consumer := Awake)
    case CloseIt => s.(queue := Close(s.queue))
  }

  // ---------------------------------------------------------------- invariant

  ghost predicate ProducerOk<T>(q: Queue<T>, p: Producer<T>) {
    p.Waiting? ==>
      && p.channel <= q.notFull
      && (p.channel == q.notFull ==> |q.contents| == q.capacity && !q.closed)
  }

  ghost predicate Inv<T>(s: System<T>) {
    && |s.queue.contents| <= s.queue.capacity
    && s.pushed == s.popped + s.queue.contents
    && (forall id :: id in s.producers ==> ProducerOk(s.queue, s.producers[id]))
    && (s.consumer == Asleep && !s.queue.closed && s.queue.contents != [] ==> s.queue.token)
    && (s.queue.token ==> s.queue.contents != [])
  }

  lemma InitialInv<T>(capacity: nat)
    ensures Inv(Initial<T>(capacity))
  {
  }

  /** A queue step that only adds elements below capacity, or replaces the channel, keeps
      every waiting producer right. */
  lemma ProducersKept<T>(s: System<T>, q: Queue<T>)
    requires Inv(s) && q.capacity == s.queue.capacity && |q.contents| <= q.capacity
    requires s.queue.notFull < q.notFull ||
             (q.notFull == s.queue.notFull && q.closed == s.queue.closed && |s.queue.contents| <= |q.contents|) ||
             (q.notFull == s.queue.notFull && q.closed == s.queue.closed && |s.queue.contents| < q.capacity)
    ensures forall id :: id in s.producers ==> ProducerOk(q, s.producers[id])
  {
  }

  lemma PushInv<T>(s: System<T>, id: nat, cancelled: bool)
    requires Inv(s) && id in s.producers && s.producers[id].Running?
    ensures Inv(PushPass(s, id, cancelled))
  {
    var rest := s.producers[id].rest;
    if rest != [] && !s.queue.closed && !cancelled && |s.queue.contents| < s.queue.capacity {
      var q := TryPush(s.queue, [rest[0]], false).0;
      assert [rest[0]][..1] == [rest[0]] && q.contents == s.queue.contents + [rest[0]];
      ProducersKept(s, q);
      assert s.pushed + [rest[0]] == s.popped + q.contents;
    }
  }

  lemma TryPushInv<T>(s: System<T>, batch: seq<T>, cancelled: bool)
    requires Inv(s)
    ensures Inv(Next(s, TryPushAll(batch, cancelled)))
  {
    var (q, count) := TryPush(s.queue, batch, cancelled);
    ProducersKept(s, q);
    assert s.pushed + batch[..count] == s.popped + (s.queue.contents + batch[..count]);
    if count == 0 {
      assert s.pushed + batch[..0] == s.pushed && s.queue.contents + batch[..0] == s.queue.contents;
    }
  }

  lemma PopInv<T>(s: System<T>, maximum: int)
    requires Inv(s) && s.consumer == Awake
    ensures Inv(Next(s, PopSome(maximum)))
  {
    var (q, out) := Pop(s.queue, maximum);
    var count := PopCount(s.queue, maximum);
    ProducersKept(s, q);
    assert s.queue.contents == s.queue.contents[..count] + s.queue.contents[count..];
    assert s.popped + s.queue.contents == (s.popped + s.queue.contents[..count]) + s.queue.contents[count..];
    assert s.popped + [] == s.popped;
  }

  lemma StepInv<T>(s: System<T>, a: Action<T>)
    requires Inv(s) && Enabled(s, a)
    ensures Inv(Next(s, a))
  {
    match a
    case PushSection(id, cancelled) => PushInv(s, id, cancelled);
    case TryPushAll(batch, cancelled) => TryPushInv(s, batch, cancelled);
    case PopSome(maximum) => PopInv(s, maximum);
    case CloseIt => ProducersKept(s, Close(s.queue));
    case FallAsleep => ProducersKept(s, Wake(s.queue));
    case TokenSeen => ProducersKept(s, s.queue.(token := false));
    case _ =>
  }

  // ---------------------------------------------------------------- runs

  /** states is a run: each state follows from the one before by an enabled action. */
  ghost predicate IsRun<T(!new)>(capacity: nat, states: seq<System<T>>) {
    && states != [] && states[0] == Initial(capacity)
    && forall i :: 0 < i < |states| ==> Follows(states[i - 1], states[i])
  }

  ghost predicate Follows<T(!new)>(s: System<T>, s': System<T>) {
    |s.queue.contents| <= s.queue.capacity && exists a :: Enabled(s, a) && s' == Next(s, a)
  }

  lemma {:induction false} RunInv<T(!new)>(capacity: nat, states: seq<System<T>>, i: nat)
    requires IsRun(capacity, states) && i < |states|
    ensures Inv(states[i]) && states[i].queue.capacity == capacity
    decreases i
  {
    if i == 0 {
      InitialInv<T>(capacity);
    } else {
      RunInv(capacity, states, i - 1);
      assert Follows(states[i - 1], states[i]);
      var a :| Enabled(states[i - 1], a) && states[i] == Next(states[i - 1], a);
      StepInv(states[i - 1], a);
      CapacityFixed(states[i - 1], a);
    }
  }

  lemma CapacityFixed<T>(s: System<T>, a: Action<T>)
    requires |s.queue.contents| <= s.queue.capacity && Enabled(s, a)
    ensures Next(s, a).queue.capacity == s.queue.capacity
  {
  }

  /** In every state of every run: the queue is a bounded FIFO; a producer that waits on
      the current channel faces a full, open queue; one that waits while there is room or
      the queue is closed can go on; and a sleeping consumer can wake if and only if the
      queue is not empty or closed. */
  lemma NoLostWakeup<T(!new)>(capacity: nat, states: seq<System<T>>, i: nat)
    requires IsRun(capacity, states) && i < |states|
    ensures var s := states[i];
            && |s.queue.contents| <= capacity
            && s.pushed == s.popped + s.queue.contents
            && (forall id :: id in s.producers && s.producers[id].Waiting? && s.producers[id].channel == s.queue.notFull ==>
                  |s.queue.contents| == capacity && !s.queue.closed)
            && (forall id :: id in s.producers && s.producers[id].Waiting? && (|s.queue.contents| < capacity || s.queue.closed) ==>
                  Enabled(s, NotFullSeen(id)))
            && (s.consumer == Asleep ==> (s.queue.contents != [] || s.queue.closed <==> Enabled(s, TokenSeen)))
  {
    RunInv(capacity, states, i);
    var s := states[i];
    assert forall id :: id in s.producers ==> ProducerOk(s.queue, s.producers[id]);
  }

  /** No producer is woken for nothing: its channel is closed only by a step that makes room
      in a full queue or closes an open one. */
  lemma WakesForAReason<T>(s: System<T>, a: Action<T>)
    requires Inv(s) && Enabled(s, a)
    ensures var q, q' := s.queue, Next(s, a).queue;
            q.notFull != q'.notFull <==>
              || (|q.contents| == q.capacity && |q'.contents| < q.capacity)
              || (!q.closed && q'.closed)
  {
    hide Inv;
    QueueBounded(s);
  }

  lemma QueueBounded<T>(s: System<T>)
    requires Inv(s)
    ensures |s.queue.contents| <= s.queue.capacity
  {
  }

  /** A closed queue, or a context that is over, takes nothing; what is in a closed queue can
      still be taken out. */
  lemma ClosedTakesNothing<T>(q: Queue<T>, batch: seq<T>, cancelled: bool, maximum: int)
    requires |q.contents| <= q.capacity && (q.closed || cancelled)
    ensures TryPush(q, batch, cancelled) == (q, 0)
    ensures Close(q).closed && Close(q).contents == q.contents && Close(Close(q)) == Close(q)
    ensures Pop(Close(q), maximum).1 == Pop(q, maximum).1
  {
  }

  /** An open queue takes as much as fits, and a pop as much as was asked for and there. */
  lemma MovesAsMuchAsPossible<T>(q: Queue<T>, batch: seq<T>, maximum: int)
    requires |q.contents| <= q.capacity
    ensures !q.closed ==>
              var (q', count) := TryPush(q, batch, false);
              q'.contents == q.contents + batch[..count] && (count == |batch| || |q'.contents| == q.capacity)
    ensures var (q', out) := Pop(q, maximum);
            && q.contents == out + q'.contents
            && (q'.contents == [] || (maximum > 0 && |out| == maximum))
  {
  }
}
