/** The outgoing path of data_packet_writer.go as a transition system: any number of
    batches being enqueued, one writer, a slot for every packet on its way. Each step is
    one critical section, one channel operation or one session write. */
module OutboundWriter {
  import opened Bytes

  /** Packet `index` of batch `batch`. */
  datatype Packet = Packet(batch: nat, index: nat)

  /** ErrClientClosed, ErrDataChannelNotReady, or what a session write returned. */
  datatype WriteError = ClientClosed | ChannelNotReady | SessionFailed(error: nat)

  /** Where enqueueOutboundDataPacketBuffers stands. `enqueued` packets have been pushed.
      Holding: a slot is taken for the next one. Returning: the push was refused and the
      slot goes back. Failing: the packets from enqueued up to next have been failed. */
  datatype Producer =
    | Acquiring(enqueued: nat)
    | Holding(enqueued: nat)
    | Returning(enqueued: nat)
    | Failing(enqueued: nat, next: nat)
    | Awaiting(enqueued: nat)
    | Returned(enqueued: nat, result: Option<WriteError>)

  /** One batch and its completion: `remaining`, `err` and `done` (what was sent on the
      channel) are the code's; `settled` (packets the writer completed), `handed` (indices
      given to the session, in order), `errors` (what its packets were completed with, nil
      left out), `stale` (its ticket was found out of date) and `writeErrors` (what session
      writes of its packets returned, nil left out) are an observer's. */
  datatype Batch = Batch(
    size: nat,
    remaining: int,
    err: Option<WriteError>,
    done: Option<Option<WriteError>>,
    producer: Producer,
    settled: nat,
    handed: seq<nat>,
    errors: seq<WriteError>,
    stale: bool,
    writeErrors: seq<nat>)

  datatype Verdict = Written(error: Option<nat>) | Skipped | Failed(reason: WriteError)

  /** Where the writer stands. FoundEmpty: a pop returned nothing, and it is about to look
      whether the queue is closed; if so it exits, if not it waits to be woken. In Settling the packets of the group are completed and
      their slots released one by one; releasing means the first one's slot is next. */
  datatype Writer =
    | Idle
    | FoundEmpty
    | Exited
    | Popped(packets: seq<Packet>)
    | Grouping(rest: seq<Packet>)
    | Checked(group: seq<Packet>, rest: seq<Packet>)
    | InWrite(group: seq<Packet>, rest: seq<Packet>)
    | Settling(group: seq<Packet>, rest: seq<Packet>, verdict: Verdict, releasing: bool)

  datatype State = State(
    capacity: nat,
    slots: nat,
    queue: seq<Packet>,
    closed: bool,
    stopped: bool,
    batches: map<nat, Batch>,
    holders: set<nat>,
    writer: Writer,
    completions: seq<Packet>)

  datatype Action =
    | Begin(b: nat, size: nat)
    | Acquire(b: nat) | SeeStopped(b: nat) | Push(b: nat) | ReturnSlot(b: nat) | FailNext(b: nat) | Collect(b: nat)
    | PopNothing | TestEmpty | PopAll | SeeClosed | Inspect | CheckCurrent(current: bool) | WriteReturns(error: Option<nat>)
    | CompleteOne | ReleaseOne | NextGroup
    | CloseQueue | StopProducers

  // ---------------------------------------------------------------- bookkeeping

  function Range(lo: nat, hi: nat): (r: seq<nat>)
    requires lo <= hi
    ensures |r| == hi - lo && forall i :: 0 <= i < |r| ==> r[i] == lo + i
  {
    seq(hi - lo, i requires 0 <= i => lo + i)
  }

  /** The packets of batch b among these, by index. */
  function Of(packets: seq<Packet>, b: nat): seq<nat> {
    if packets == [] then []
    else if packets[0].batch == b then [packets[0].index] + Of(packets[1..], b)
    else Of(packets[1..], b)
  }

  lemma {:induction false} OfConcat(x: seq<Packet>, y: seq<Packet>, b: nat)
    ensures Of(x + y, b) == Of(x, b) + Of(y, b)
  {
    if x == [] {
      assert x + y == y;
    } else {
      assert (x + y)[1..] == x[1..] + y;
      OfConcat(x[1..], y, b);
    }
  }

  /** How many packets at the front share the first one's batch. */
  function GroupLength(packets: seq<Packet>): (n: nat)
    requires packets != []
    ensures 1 <= n <= |packets|
    ensures forall i :: 0 <= i < n ==> packets[i].batch == packets[0].batch
  {
    if |packets| > 1 && packets[1].batch == packets[0].batch then 1 + GroupLength(packets[1..]) else 1
  }

  /** The group is as long as it can be. */
  lemma {:induction false} GroupIsMaximal(packets: seq<Packet>)
    requires packets != []
    ensures GroupLength(packets) == |packets| || packets[GroupLength(packets)].batch != packets[0].batch
  {
    if |packets| > 1 && packets[1].batch == packets[0].batch {
      GroupIsMaximal(packets[1..]);
    }
  }

  lemma {:induction false} OfGroup(group: seq<Packet>, b: nat)
    requires forall p :: p in group ==> p.batch == b
    ensures Of(group, b) == seq(|group|, i requires 0 <= i < |group| => group[i].index)
    ensures forall c :: c != b ==> Of(group, c) == []
  {
    if group != [] {
      OfGroup(group[1..], b);
    }
  }

  /** Packets popped and not completed yet. */
  function Unsettled(w: Writer): seq<Packet> {
    match w
    case Idle => []
    case FoundEmpty => []
    case Exited => []
    case Popped(packets) => packets
    case Grouping(rest) => rest
    case Checked(group, rest) => group + rest
    case InWrite(group, rest) => group + rest
    case Settling(group, rest, _, releasing) => (if releasing && group != [] then group[1..] else group) + rest
  }

  /** Packets popped whose slots are still held. */
  function Held(w: Writer): nat {
    match w
    case Idle => 0
    case FoundEmpty => 0
    case Exited => 0
    case Popped(packets) => |packets|
    case Grouping(rest) => |rest|
    case Checked(group, rest) => |group| + |rest|
    case InWrite(group, rest) => |group| + |rest|
    case Settling(group, rest, _, _) => |group| + |rest|
  }

  function InFlight(s: State): seq<Packet> {
    Unsettled(s.writer) + s.queue
  }

  function FailedTo(batch: Batch): nat {
    match batch.producer
    case Failing(_, next) => next
    case Awaiting(_) => batch.size
    case Returned(_, _) => batch.size
    case _ => batch.producer.enqueued
  }

  /** outboundDataPacketCompletion.complete. */
  function Complete(batch: Batch, error: Option<WriteError>): Batch {
    var err := if batch.err.None? then error else batch.err;
    var remaining := batch.remaining - 1;
    batch.(err := err, remaining := remaining, done := if remaining == 0 then Some(err) else batch.done,
           errors := batch.errors + if error.Some? then [error.value] else [])
  }

  function FirstOf(errors: seq<WriteError>): Option<WriteError> {
    if errors == [] then None else Some(errors[0])
  }

  /** The completion object of one batch, as the code holds it: the first error stays,
      and the last completion sends it. */
  class Completion {
    var remaining: int
    var err: Option<WriteError>
    var done: Option<Option<WriteError>>

    constructor (remaining: nat)
      ensures this.remaining == remaining && err == None && done == None
    {
      this.remaining, err, done := remaining, None, None;
    }

    method CompleteWith(error: Option<WriteError>, ghost batch: Batch)
      requires batch.remaining == remaining && batch.err == err && batch.done == done
      modifies this
      ensures var after := Complete(batch, error);
              remaining == after.remaining && err == after.err && done == after.done
    {
      if err.None? && error.Some? {
        err := error;
      }
      remaining := remaining - 1;
      if remaining == 0 {
        done := Some(err);
      }
    }
  }

  // ---------------------------------------------------------------- steps

  predicate Enabled(s: State, a: Action) {
    match a
    case Begin(b, size) => b !in s.batches && size > 0
    case Acquire(b) => b in s.batches && s.batches[b].producer.Acquiring? && s.slots < s.capacity
    case SeeStopped(b) => b in s.batches && s.batches[b].producer.Acquiring? && s.stopped
    case Push(b) => b in s.batches && s.batches[b].producer.Holding? && (s.closed || |s.queue| < s.capacity)
    case ReturnSlot(b) => b in s.batches && s.batches[b].producer.Returning? && s.slots > 0
    case FailNext(b) => b in s.batches && s.batches[b].producer.Failing?
    case Collect(b) => b in s.batches && s.batches[b].producer.Awaiting? && s.batches[b].done.Some?
    case PopNothing => s.writer.Idle? && s.queue == []
    case TestEmpty => s.writer.FoundEmpty?
    case PopAll => s.writer.Idle? && s.queue != []
    case SeeClosed => s.writer.Popped?
    case Inspect => s.writer.Grouping? && s.writer.rest != [] && s.writer.rest[0].batch in s.batches
    case CheckCurrent(_) => s.writer.Checked? && s.writer.group != [] && s.writer.group[0].batch in s.batches
    case WriteReturns(_) => s.writer.InWrite? && s.writer.group != [] && s.writer.group[0].batch in s.batches
    case CompleteOne =>
      s.writer.Settling? && !s.writer.releasing && s.writer.group != [] && s.writer.group[0].batch in s.batches
    case ReleaseOne => s.writer.Settling? && s.writer.releasing && s.writer.group != [] && s.slots > 0
    case NextGroup => (s.writer.Settling? && s.writer.group == []) || (s.writer.Grouping? && s.writer.rest == [])
    case CloseQueue => true
    case StopProducers => true
  }

  function WithProducer(s: State, b: nat, producer: Producer): State
    requires b in s.batches
  {
    s.(batches := s.batches[b := s.batches[b].(producer := producer)])
  }

  function AfterPush(k: nat, size: nat): Producer {
    if k + 1 < size then Acquiring(k + 1) else Awaiting(k + 1)
  }

  function NextProducer(s: State, a: Action): State
    requires Enabled(s, a) && (a.Begin? || a.Acquire? || a.SeeStopped? || a.Push? || a.ReturnSlot? || a.FailNext? || a.Collect?)
  {
    match a
    case Begin(b, size) =>
      s.(batches := s.batches[b := Batch(size, size, None, None, Acquiring(0), 0, [], [], false, [])])
    case Acquire(b) =>
      WithProducer(s, b, Holding(s.batches[b].producer.enqueued)).(slots := s.slots + 1, holders := s.holders + {b})
    case SeeStopped(b) =>
      var k := s.batches[b].producer.enqueued;
      WithProducer(s, b, Failing(k, k))
    case Push(b) =>
      var k := s.batches[b].producer.enqueued;
      if s.closed then WithProducer(s, b, Returning(k))
      else
        WithProducer(s, b, AfterPush(k, s.batches[b].size)).(queue := s.queue + [Packet(b, k)], holders := s.holders - {b})
    case ReturnSlot(b) =>
      var k := s.batches[b].producer.enqueued;
      WithProducer(s, b, Failing(k, k)).(slots := s.slots - 1, holders := s.holders - {b})
    case FailNext(b) =>
      var batch, p := s.batches[b], s.batches[b].producer;
      var producer := if p.next + 1 < batch.size then Failing(p.enqueued, p.next + 1) else Awaiting(p.enqueued);
      s.(batches := s.batches[b := Complete(batch, Some(ClientClosed)).(producer := producer)],
         completions := s.completions + [Packet(b, p.next)])
    case Collect(b) =>
      WithProducer(s, b, Returned(s.batches[b].producer.enqueued, s.batches[b].done.value))
  }

  function NextWriter(s: State, a: Action): State
    requires Enabled(s, a) && (a.PopNothing? || a.TestEmpty? || a.PopAll? || a.SeeClosed? || a.Inspect? || a.CheckCurrent? || a.WriteReturns? ||
                               a.CompleteOne? || a.ReleaseOne? || a.NextGroup?)
  {
    var w := s.writer;
    match a
    case PopNothing => s.(writer := FoundEmpty)
    case TestEmpty => s.(writer := if s.closed then Exited else Idle)
    case PopAll => s.(writer := Popped(s.queue), queue := [])
    case SeeClosed =>
      s.(writer := if s.closed then Settling(w.packets, [], Failed(ClientClosed), false) else Grouping(w.packets))
    case Inspect =>
      var n := GroupLength(w.rest);
      s.(writer := if s.batches[w.rest[0].batch].err.Some? then Settling(w.rest[..n], w.rest[n..], Skipped, false)
                   else Checked(w.rest[..n], w.rest[n..]))
    case CheckCurrent(current) =>
      var b := w.group[0].batch;
      if !current then
        s.(writer := Settling(w.group, w.rest, Failed(ChannelNotReady), false),
           batches := s.batches[b := s.batches[b].(stale := true)])
      else
        s.(writer := InWrite(w.group, w.rest),
           batches := s.batches[b := s.batches[b].(handed := s.batches[b].handed + Of(w.group, b))])
    case WriteReturns(error) =>
      var b := w.group[0].batch;
      s.(writer := Settling(w.group, w.rest, Written(error), false),
         batches := s.batches[b := s.batches[b].(writeErrors := s.batches[b].writeErrors + if error.Some? then [error.value] else [])])
    case CompleteOne =>
      var p := w.group[0];
      var batch := s.batches[p.batch];
      s.(writer := w.(releasing := true),
         batches := s.batches[p.batch := Complete(batch, ErrorOf(w.verdict)).(settled := batch.settled + 1)],
         completions := s.completions + [p])
    case ReleaseOne => s.(writer := w.(releasing := false, group := w.group[1..]), slots := s.slots - 1)
    case NextGroup => s.(writer := if w.Settling? then Grouping(w.rest) else Idle)
  }

  /** The error a packet is completed with: skipped packets of a failed batch report none. */
  function ErrorOf(v: Verdict): Option<WriteError> {
    match v
    case Written(error) => if error.Some? then Some(SessionFailed(error.value)) else None
    case Skipped => None
    case Failed(reason) => Some(reason)
  }

  function Next(s: State, a: Action): State
    requires Enabled(s, a)
  {
    match a
    case CloseQueue => s.(closed := true)
    case StopProducers => s.(stopped := true)
    case Begin(_, _) => NextProducer(s, a)
    case Acquire(_) => NextProducer(s, a)
    case SeeStopped(_) => NextProducer(s, a)
    case Push(_) => NextProducer(s, a)
    case ReturnSlot(_) => NextProducer(s, a)
    case FailNext(_) => NextProducer(s, a)
    case Collect(_) => NextProducer(s, a)
    case _ => NextWriter(s, a)
  }
}
