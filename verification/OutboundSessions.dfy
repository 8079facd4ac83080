/** The outgoing path and the client's session fields together: the queue writer takes the
    write lock and the data-plane lock, checks the ticket of the first packet of a group,
    and hands the whole group to that ticket's session. Direct writers, the supervisor and
    everyone else who touches the session fields run in between. */
module OutboundSessions {
  import opened Bytes
  import opened ClientSessions
  import S = SessionIsolation
  import W = OutboundWriter
  import Safe = OutboundSafety

  /** A packet given to a session, and the session fields at that instant. */
  datatype Delivery = Delivery(packet: W.Packet, session: SessionId, core: Core)

  /** tickets holds what each packet of a batch carries. holding says that the write lock is
      the queue writer's. log is an observer's. */
  datatype State = State(
    out: W.State,
    client: S.State,
    tickets: map<nat, seq<Ticket>>,
    holding: bool,
    log: seq<Delivery>)

  datatype Action =
    | Begin(b: nat, size: nat, ticket: Ticket)
    | Outgoing(move: W.Action)
    | Client(step: S.Action)
    | LockWrites | LockDataPlane | Check(ready: bool) | WriteReturns(error: Option<nat>)

  /** Steps of the outgoing path that do not touch the session fields. */
  predicate Separate(a: W.Action) {
    !a.Begin? && !a.CheckCurrent? && !a.WriteReturns?
  }

  /** Steps that only the holder of the write lock takes. */
  predicate ForHolder(a: S.Action) {
    a.TakeDataPlane? || a.CheckTicket? || a.WriteEnds?
  }

  /** The ticket packet p carries. */
  function TicketOf(s: State, p: W.Packet): Ticket
    requires p.batch in s.tickets && p.index < |s.tickets[p.batch]|
  {
    s.tickets[p.batch][p.index]
  }

  ghost predicate HasTicket(s: State, p: W.Packet) {
    p.batch in s.tickets && p.index < |s.tickets[p.batch]|
  }

  ghost predicate Enabled(s: State, a: Action) {
    match a
    case Begin(b, size, _) => W.Enabled(s.out, W.Begin(b, size))
    case Outgoing(move) => Separate(move) && W.Enabled(s.out, move)
    case Client(step) => S.Enabled(s.client, step) && (ForHolder(step) ==> !s.holding)
    case LockWrites => s.out.writer.Checked? && !s.holding && S.Enabled(s.client, S.TakeWriteLock)
    case LockDataPlane => s.holding && S.Enabled(s.client, S.TakeDataPlane)
    case Check(_) =>
      && s.holding && s.client.writing == S.Reading && W.Enabled(s.out, W.CheckCurrent(true))
      && HasTicket(s, s.out.writer.group[0])
    case WriteReturns(error) =>
      s.holding && S.Enabled(s.client, S.WriteEnds) && W.Enabled(s.out, W.WriteReturns(error))
  }

  function Deliveries(group: seq<W.Packet>, session: SessionId, core: Core): (r: seq<Delivery>)
    ensures |r| == |group| && forall i :: 0 <= i < |r| ==> r[i] == Delivery(group[i], session, core)
  {
    seq(|group|, i requires 0 <= i < |group| => Delivery(group[i], session, core))
  }

  /** The tickets of a batch: the same for every packet, as enqueueing builds them. */
  function Stamped(size: nat, ticket: Ticket): (r: seq<Ticket>)
    ensures |r| == size && forall i :: 0 <= i < size ==> r[i] == ticket
  {
    seq(size, _ => ticket)
  }

  ghost function Next(s: State, a: Action): State
    requires Enabled(s, a)
  {
    match a
    case Begin(b, size, ticket) =>
      s.(out := W.Next(s.out, W.Begin(b, size)), tickets := s.tickets[b := Stamped(size, ticket)])
    case Outgoing(move) => s.(out := W.Next(s.out, move))
    case Client(step) => s.(client := S.Next(s.client, step))
    case LockWrites => s.(client := S.Next(s.client, S.TakeWriteLock), holding := true)
    case LockDataPlane => s.(client := S.Next(s.client, S.TakeDataPlane))
    case Check(ready) =>
      var group := s.out.writer.group;
      var ticket := TicketOf(s, group[0]);
      var current := TicketCurrent(s.client.core, ticket, ready);
      s.(out := W.Next(s.out, W.CheckCurrent(current)),
         client := S.Next(s.client, S.CheckTicket(ticket, ready)),
         holding := current,
         log := s.log + if current then Deliveries(group, ticket.session, s.client.core) else [])
    case WriteReturns(error) =>
      s.(out := W.Next(s.out, W.WriteReturns(error)), client := S.Next(s.client, S.WriteEnds), holding := false)
  }

  function Initial(capacity: nat): State {
    State(Safe.Initial(capacity), S.Initial(), map[], false, [])
  }

  // ---------------------------------------------------------------- invariant

  /** Every batch has a ticket for each packet, and they are alike. */
  ghost predicate TicketsOk(s: State) {
    && s.tickets.Keys == s.out.batches.Keys
    && forall b :: b in s.tickets ==> Alike(s.tickets[b], s.out.batches[b].size)
  }

  ghost predicate Alike(tickets: seq<Ticket>, size: nat) {
    |tickets| == size && forall i :: 0 <= i < size ==> tickets[i] == tickets[0]
  }

  /** The lock is held only around a write, and then for the ticket of its group. */
  ghost predicate LocksOk(s: State) {
    && (s.holding ==> s.client.writing != S.NoWriter && (s.out.writer.Checked? || s.out.writer.InWrite?))
    && (s.out.writer.InWrite? ==> s.holding)
    && (s.holding ==> (s.client.writing.InWrite? <==> s.out.writer.InWrite?))
    && (s.out.writer.InWrite? ==>
          && s.out.writer.group != [] && HasTicket(s, s.out.writer.group[0])
          && s.client.writing == S.InWrite(TicketOf(s, s.out.writer.group[0])))
  }

  /** The delivery was right: the session was the packet's own, and at that instant the
      client was open and the packet's own ticket was the published state. */
  ghost predicate Right(s: State, d: Delivery) {
    && HasTicket(s, d.packet)
    && d.session == TicketOf(s, d.packet).session
    && !d.core.closed && d.core.terminalError.None? && Matches(d.core, TicketOf(s, d.packet))
  }

  function Delivered(log: seq<Delivery>): (r: seq<W.Packet>)
    ensures |r| == |log| && forall i :: 0 <= i < |r| ==> r[i] == log[i].packet
  {
    seq(|log|, i requires 0 <= i < |log| => log[i].packet)
  }

  ghost predicate LogOk(s: State) {
    && (forall i :: 0 <= i < |s.log| ==> Right(s, s.log[i]))
    && forall b :: b in s.out.batches ==> W.Of(Delivered(s.log), b) == s.out.batches[b].handed
  }

  ghost predicate Inv(s: State) {
    Safe.Inv(s.out) && S.Inv(s.client) && TicketsOk(s) && LocksOk(s) && LogOk(s)
  }

  lemma InitialInv(capacity: nat)
    ensures Inv(Initial(capacity))
  {
    Safe.InitialInv(capacity);
  }

  // ---------------------------------------------------------------- packets and tickets

  lemma {:induction false} IndexListed(packets: seq<W.Packet>, p: W.Packet)
    requires p in packets
    ensures p.index in W.Of(packets, p.batch)
  {
    if packets[0] != p {
      IndexListed(packets[1..], p);
    }
  }

  /** Every packet on its way carries a ticket. */
  lemma FlyingHasTicket(s: State, p: W.Packet)
    requires Safe.Inv(s.out) && TicketsOk(s) && p in W.InFlight(s.out)
    ensures HasTicket(s, p)
  {
    hide W.Of;
    IndexListed(W.InFlight(s.out), p);
    var t := s.out.batches[p.batch];
    assert Safe.BatchOk(t, s.out.writer, p.batch, W.Of(W.InFlight(s.out), p.batch));
  }

  /** The packets of a group carry one ticket, so checking the first checks them all. */
  lemma GroupAlike(s: State, i: nat)
    requires Safe.Inv(s.out) && TicketsOk(s)
    requires s.out.writer.Checked? || s.out.writer.InWrite?
    requires i < |s.out.writer.group|
    ensures HasTicket(s, s.out.writer.group[i]) && HasTicket(s, s.out.writer.group[0])
    ensures TicketOf(s, s.out.writer.group[i]) == TicketOf(s, s.out.writer.group[0])
  {
    hide Safe.BatchesOk, W.Of;
    var group := s.out.writer.group;
    assert group[i] in W.InFlight(s.out) && group[0] in W.InFlight(s.out);
    FlyingHasTicket(s, group[i]);
    FlyingHasTicket(s, group[0]);
    assert group[i].batch == group[0].batch;
  }

  // ---------------------------------------------------------------- steps

  /** A step that leaves batches, tickets, log and writes alone. */
  lemma BatchesKept(s: State, s': State)
    requires TicketsOk(s) && LogOk(s) && s'.tickets == s.tickets && s'.log == s.log
    requires s'.out.batches.Keys == s.out.batches.Keys
    requires forall b :: b in s.out.batches ==>
               s'.out.batches[b].size == s.out.batches[b].size && s'.out.batches[b].handed == s.out.batches[b].handed
    ensures TicketsOk(s') && LogOk(s')
  {
    hide W.Of;
    forall i | 0 <= i < |s'.log| ensures Right(s', s'.log[i]) {
      assert Right(s, s.log[i]);
    }
  }

  /** What a separate step leaves alone. */
  ghost predicate Keeps(s: W.State, s': W.State) {
    && s'.batches.Keys == s.batches.Keys
    && (forall b :: b in s.batches ==> s'.batches[b].size == s.batches[b].size && s'.batches[b].handed == s.batches[b].handed)
    && (s.writer.InWrite? || s.writer.Checked? ==> s'.writer == s.writer)
    && (s'.writer.InWrite? ==> s.writer.InWrite?)
  }

  predicate ByWriter(a: W.Action) {
    a.PopNothing? || a.TestEmpty? || a.PopAll? || a.SeeClosed? || a.Inspect? || a.CompleteOne? || a.ReleaseOne? || a.NextGroup?
  }

  lemma WriterKeeps(s: W.State, move: W.Action)
    requires ByWriter(move) && W.Enabled(s, move)
    ensures Keeps(s, W.Next(s, move))
  {
    hide W.GroupLength, W.Of;
  }

  lemma OutgoingKeeps(s: W.State, move: W.Action)
    requires Separate(move) && W.Enabled(s, move)
    ensures Keeps(s, W.Next(s, move))
  {
    hide W.GroupLength, W.Of, W.NextWriter;
    if ByWriter(move) {
      WriterKeeps(s, move);
    }
  }

  lemma OutgoingInv(s: State, move: W.Action)
    requires Inv(s) && Enabled(s, Outgoing(move))
    ensures Inv(Next(s, Outgoing(move)))
  {
    hide W.Next, Safe.Inv, S.Inv, TicketsOk, LogOk;
    OutgoingKeeps(s.out, move);
    Safe.StepInv(s.out, move);
    BatchesKept(s, Next(s, Outgoing(move)));
  }

  lemma BeginInv(s: State, b: nat, size: nat, ticket: Ticket)
    requires Inv(s) && Enabled(s, Begin(b, size, ticket))
    ensures Inv(Next(s, Begin(b, size, ticket)))
  {
    hide Safe.Inv, S.Inv, W.Of;
    var s' := Next(s, Begin(b, size, ticket));
    Safe.StepInv(s.out, W.Begin(b, size));
    assert s'.tickets.Keys == s.tickets.Keys + {b} && s'.out.batches.Keys == s.out.batches.Keys + {b};
    forall i | 0 <= i < |s.log| ensures Right(s', s.log[i]) && s.log[i].packet.batch != b {
      assert Right(s, s.log[i]);
    }
    Safe.OfAbsent(Delivered(s.log), b);
  }

  lemma CheckLog(s: State, ready: bool)
    requires Inv(s) && Enabled(s, Check(ready)) && TicketCurrent(s.client.core, TicketOf(s, s.out.writer.group[0]), ready)
    ensures var s' := Next(s, Check(ready)); TicketsOk(s') && LogOk(s')
  {
    hide W.Of, Safe.Inv, S.Inv, LocksOk, Alike;
    var s', group := Next(s, Check(ready)), s.out.writer.group;
    var more := Deliveries(group, TicketOf(s, group[0]).session, s.client.core);
    assert s'.log == s.log + more && s'.tickets == s.tickets;
    forall i | 0 <= i < |s'.log| ensures Right(s', s'.log[i]) {
      if i < |s.log| {
        assert Right(s, s.log[i]);
      } else {
        GroupAlike(s, i - |s.log|);
      }
    }
    var b := group[0].batch;
    GroupOfOne(s.out);
    assert Delivered(s'.log) == Delivered(s.log) + group;
    forall c | c in s'.out.batches ensures W.Of(Delivered(s'.log), c) == s'.out.batches[c].handed {
      W.OfConcat(Delivered(s.log), group, c);
      W.OfGroup(group, b);
    }
  }

  lemma GroupOfOne(s: W.State)
    requires Safe.Inv(s) && s.writer.Checked?
    ensures forall p :: p in s.writer.group ==> p.batch == s.writer.group[0].batch
  {
  }

  lemma CheckInv(s: State, ready: bool)
    requires Inv(s) && Enabled(s, Check(ready))
    ensures Inv(Next(s, Check(ready)))
  {
    hide Safe.Inv, S.Inv, TicketsOk, LogOk, W.Of;
    var s' := Next(s, Check(ready));
    var ticket := TicketOf(s, s.out.writer.group[0]);
    var current := TicketCurrent(s.client.core, ticket, ready);
    Safe.StepInv(s.out, W.CheckCurrent(current));
    S.StepInv(s.client, S.CheckTicket(ticket, ready));
    if current {
      CheckLog(s, ready);
    } else {
      assert s.log + [] == s.log;
      BatchesKept(s, s');
    }
  }

  lemma WriteReturnsInv(s: State, error: Option<nat>)
    requires Inv(s) && Enabled(s, WriteReturns(error))
    ensures Inv(Next(s, WriteReturns(error)))
  {
    hide Safe.Inv, S.Inv, TicketsOk, LogOk;
    Safe.StepInv(s.out, W.WriteReturns(error));
    S.StepInv(s.client, S.WriteEnds);
    BatchesKept(s, Next(s, WriteReturns(error)));
  }

  lemma ClientInv(s: State, step: S.Action)
    requires Inv(s) && Enabled(s, Client(step))
    ensures Inv(Next(s, Client(step)))
  {
    hide Safe.Inv, S.Inv, TicketsOk, LogOk;
    S.StepInv(s.client, step);
    BatchesKept(s, Next(s, Client(step)));
  }

  lemma StepInv(s: State, a: Action)
    requires Inv(s) && Enabled(s, a)
    ensures Inv(Next(s, a))
  {
    hide Safe.Inv, S.Inv, TicketsOk, LogOk, W.Next, W.Enabled;
    match a
    case Begin(b, size, ticket) => BeginInv(s, b, size, ticket);
    case Outgoing(move) => OutgoingInv(s, move);
    case Client(step) => ClientInv(s, step);
    case LockWrites =>
      S.StepInv(s.client, S.TakeWriteLock);
      BatchesKept(s, Next(s, a));
    case LockDataPlane =>
      S.StepInv(s.client, S.TakeDataPlane);
      BatchesKept(s, Next(s, a));
    case Check(ready) => CheckInv(s, ready);
    case WriteReturns(error) => WriteReturnsInv(s, error);
  }

  // ---------------------------------------------------------------- runs

  ghost predicate Follows(s: State, s': State) {
    exists a :: Enabled(s, a) && s' == Next(s, a)
  }

  ghost predicate IsRun(capacity: nat, states: seq<State>) {
    && states != [] && states[0] == Initial(capacity)
    && forall i :: 0 < i < |states| ==> Follows(states[i - 1], states[i])
  }

  lemma {:induction false} RunInv(capacity: nat, states: seq<State>, i: nat)
    requires IsRun(capacity, states) && i < |states|
    ensures Inv(states[i])
    decreases i
  {
    hide Inv, Enabled, Next;
    if i == 0 {
      InitialInv(capacity);
    } else {
      RunInv(capacity, states, i - 1);
      assert Follows(states[i - 1], states[i]);
      var a :| Enabled(states[i - 1], a) && states[i] == Next(states[i - 1], a);
      StepInv(states[i - 1], a);
    }
  }

  /** In every state of every run: exactly the packets in the log were handed over, batch by
      batch in order; each went to the session of its own ticket while the client was open
      and its own ticket was the published session, generation and revision; and as long as
      a group is being written, that holds for every packet of it. */
  lemma EveryPacketOnItsTicket(capacity: nat, states: seq<State>, i: nat)
    requires IsRun(capacity, states) && i < |states|
    ensures var s := states[i];
            && (forall b :: b in s.out.batches ==> W.Of(Delivered(s.log), b) == s.out.batches[b].handed)
            && (forall k :: 0 <= k < |s.log| ==> Right(s, s.log[k]))
            && (s.out.writer.InWrite? ==> forall k :: 0 <= k < |s.out.writer.group| ==>
                  HasTicket(s, s.out.writer.group[k]) && Matches(s.client.core, TicketOf(s, s.out.writer.group[k])))
  {
    RunInv(capacity, states, i);
    var s := states[i];
    if s.out.writer.InWrite? {
      forall k | 0 <= k < |s.out.writer.group|
        ensures HasTicket(s, s.out.writer.group[k]) && Matches(s.client.core, TicketOf(s, s.out.writer.group[k]))
      {
        GroupAlike(s, k);
      }
    }
  }
}
