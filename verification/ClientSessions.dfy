/** The session fields of Client and the critical sections that change or read them, from
    client.go and client_supervisor.go. */
module ClientSessions {
  import opened Bytes

  type SessionId = nat

  /** How a client ends: closed, or by the first error that ended it. */
  datatype ClientError = ClientClosed | SessionTerminated | Cause(error: nat)

  /** The context the supervisor runs under. */
  datatype Context = NotStarted | Running | Cancelled

  datatype Core = Core(
    closed: bool,
    terminalError: Option<ClientError>,
    supervisorContext: Context,
    currentSession: Option<SessionId>,
    sessionGeneration: nat,
    currentGeneration: nat,
    publishedSession: Option<SessionId>,
    publishedGeneration: nat,
    initialRevision: nat,
    publishedRevision: nat,
    configurationRevision: nat)

  const FRESH := Core(false, None, NotStarted, None, 0, 0, None, 0, 0, 0, 0)

  function Unpublished(c: Core): Core {
    c.(publishedSession := None, publishedGeneration := 0, initialRevision := 0, publishedRevision := 0)
  }

  /** setCurrentSession and whether it took place. */
  function SetCurrent(c: Core, session: SessionId, cancelled: bool): (Core, bool) {
    if c.closed || cancelled then (c, false)
    else
      (Unpublished(c).(sessionGeneration := c.sessionGeneration + 1, currentGeneration := c.sessionGeneration + 1,
                       currentSession := Some(session)), true)
  }

  /** publishCurrentSession. */
  function Publish(c: Core, session: SessionId, revision: nat, cancelled: bool, ready: bool): (Core, bool) {
    if c.closed || c.terminalError.Some? || cancelled || c.currentSession != Some(session) || !ready then (c, false)
    else
      (c.(publishedSession := Some(session), publishedGeneration := c.currentGeneration,
          initialRevision := revision, publishedRevision := revision), true)
  }

  /** clearCurrentSession. */
  function Clear(c: Core, session: SessionId): Core {
    if c.currentSession == Some(session) then Unpublished(c).(currentSession := None) else c
  }

  /** closeSupervisorState. */
  function CloseSupervisor(c: Core): Core {
    Unpublished(c).(currentSession := None, closed := c.closed || c.terminalError.None?)
  }

  function Cancel(c: Core): Core {
    c.(supervisorContext := if c.supervisorContext.NotStarted? then NotStarted else Cancelled)
  }

  /** The locked part of setTerminalError: an open client keeps its first error. */
  function SetTerminal(c: Core, error: Option<nat>): Core {
    if c.closed || c.terminalError.Some? then c
    else c.(terminalError := Some(if error.None? then SessionTerminated else Cause(error.value)))
  }

  /** What Start comes to: launching the goroutines, nil, or ErrClientClosed. */
  datatype StartOutcome = Launched | AlreadyStarted | StartRefused

  /** The locked part of Start. */
  function StartUp(c: Core): (Core, StartOutcome) {
    if !c.supervisorContext.NotStarted? then (c, AlreadyStarted)
    else if c.closed then (c, StartRefused)
    else (c.(supervisorContext := Running), Launched)
  }

  /** The locked part of Close. */
  function MarkClosed(c: Core): Core {
    Cancel(c.(closed := true))
  }

  /** Why the client is over, if it is: what readers and waiters are told. */
  function Ended(c: Core): Option<ClientError> {
    if c.terminalError.Some? then c.terminalError else if c.closed then Some(ClientClosed) else None
  }

  /** setTunnelConfiguration hands out the next revision. */
  function NextConfiguration(c: Core): Core {
    c.(configurationRevision := c.configurationRevision + 1)
  }

  /** The locked part of publishTunnelConfigurationEvent. */
  function PublishEvent(c: Core, revision: nat): Core {
    if c.publishedSession.Some? && c.publishedSession == c.currentSession && revision > c.publishedRevision
    then c.(publishedRevision := revision)
    else c
  }

  // ---------------------------------------------------------------- readers

  /** What a packet remembers: the generation, and the published revision or 0. */
  datatype Tag = Tag(generation: nat, revision: nat)

  /** The tag pushIncomingDataPacketsWithin puts on packets of a session, if it lets them in. */
  function TagOf(c: Core, session: SessionId, ready: bool): Option<Tag> {
    if c.closed || c.terminalError.Some? || c.currentSession != Some(session) then None
    else
      Some(Tag(c.currentGeneration,
               if c.publishedSession == Some(session) && c.publishedGeneration == c.currentGeneration && ready
               then c.publishedRevision else 0))
  }

  /** Deliver: the reader gets the packet. Drop: it is out of date. Wait: the session is
      not ready and may become so. End: the client is over. */
  datatype Resolution = Deliver(revision: nat) | Drop | Wait | End(reason: ClientError)

  predicate ReadyFor(c: Core, generation: nat, ready: bool) {
    && !c.closed && c.terminalError.None? && c.currentSession.Some? && c.publishedSession == c.currentSession
    && c.publishedGeneration == generation && ready
  }

  /** One pass of resolveIncomingDataPacket. */
  function Resolve(c: Core, tag: Tag, ready: bool): Resolution {
    if tag.generation != c.currentGeneration then Drop
    else if ReadyFor(c, tag.generation, ready) then
      var revision := if tag.revision == 0 then c.initialRevision else tag.revision;
      if revision == c.publishedRevision then Deliver(revision) else Drop
    else if Ended(c).Some? then End(Ended(c).value)
    else Wait
  }

  /** What a write was queued for. */
  datatype Ticket = Ticket(session: SessionId, generation: nat, revision: nat)

  /** outboundDataPacketCurrent. */
  predicate TicketCurrent(c: Core, t: Ticket, ready: bool) {
    !c.closed && c.terminalError.None? && Matches(c, t) && ready
  }

  predicate Matches(c: Core, t: Ticket) {
    && c.currentSession == Some(t.session) && c.currentGeneration == t.generation
    && c.publishedSession == Some(t.session) && c.publishedGeneration == t.generation
    && c.publishedRevision == t.revision
  }

  /** readySessionAtRevision, readySessionSnapshot: the ticket a new write gets. */
  function NewTicket(c: Core, ready: bool): Option<Ticket> {
    if c.closed || c.terminalError.Some? || c.currentSession.None? || c.publishedSession != c.currentSession || !ready then None
    else Some(Ticket(c.currentSession.value, c.currentGeneration, c.publishedRevision))
  }

  /** The fields as the client holds them. */
  class Client {
    var closed: bool
    var terminalError: Option<ClientError>
    var supervisorContext: Context
    var currentSession: Option<SessionId>
    var sessionGeneration: nat
    var currentSessionGeneration: nat
    var publishedSession: Option<SessionId>
    var publishedSessionGeneration: nat
    var publishedSessionInitialRevision: nat
    var publishedSessionRevision: nat
    var tunnelConfigurationRevision: nat

    function View(): Core
      reads this
    {
      Core(closed, terminalError, supervisorContext, currentSession, sessionGeneration, currentSessionGeneration, publishedSession,
           publishedSessionGeneration, publishedSessionInitialRevision, publishedSessionRevision,
           tunnelConfigurationRevision)
    }

    constructor ()
      ensures View() == FRESH
    {
      closed, terminalError, supervisorContext := false, None, NotStarted;
      currentSession, publishedSession := None, None;
      sessionGeneration, currentSessionGeneration, publishedSessionGeneration := 0, 0, 0;
      publishedSessionInitialRevision, publishedSessionRevision, tunnelConfigurationRevision := 0, 0, 0;
    }

    method Withdraw()
      modifies this
      ensures View() == Unpublished(old(View()))
    {
      publishedSession := None;
      publishedSessionGeneration := 0;
      publishedSessionInitialRevision := 0;
      publishedSessionRevision := 0;
    }

    method SetCurrentSession(session: SessionId, cancelled: bool) returns (ok: bool)
      modifies this
      ensures (View(), ok) == SetCurrent(old(View()), session, cancelled)
    {
      if closed || cancelled {
        return false;
      }
      sessionGeneration := sessionGeneration + 1;
      currentSessionGeneration := sessionGeneration;
      currentSession := Some(session);
      Withdraw();
      return true;
    }

    method PublishCurrentSession(session: SessionId, revision: nat, cancelled: bool, ready: bool) returns (ok: bool)
      modifies this
      ensures (View(), ok) == Publish(old(View()), session, revision, cancelled, ready)
    {
      if closed || terminalError.Some? || cancelled || currentSession != Some(session) || !ready {
        return false;
      }
      publishedSession := Some(session);
      publishedSessionGeneration := currentSessionGeneration;
      publishedSessionInitialRevision := revision;
      publishedSessionRevision := revision;
      return true;
    }

    method ClearCurrentSession(session: SessionId)
      modifies this
      ensures View() == Clear(old(View()), session)
    {
      if currentSession == Some(session) {
        currentSession := None;
        Withdraw();
      }
    }

    method CloseSupervisorState()
      modifies this
      ensures View() == CloseSupervisor(old(View()))
    {
      if !closed && terminalError.None? {
        closed := true;
      }
      currentSession := None;
      Withdraw();
    }

    method SetTerminalError(error: Option<nat>)
      modifies this
      ensures View() == if old(closed) then old(View()) else Cancel(SetTerminal(old(View()), error))
    {
      var reason := if error.None? then SessionTerminated else Cause(error.value);
      if closed {
        return;
      }
      if terminalError.None? {
        terminalError := Some(reason);
      }
      CancelSupervisor();
    }

    method CancelSupervisor()
      modifies this`supervisorContext
      ensures View() == Cancel(old(View()))
    {
      if supervisorContext != NotStarted {
        supervisorContext := Cancelled;
      }
    }

    method Start() returns (outcome: StartOutcome)
      modifies this
      ensures (View(), outcome) == StartUp(old(View()))
    {
      if supervisorContext != NotStarted {
        return AlreadyStarted;
      }
      if closed {
        return StartRefused;
      }
      supervisorContext := Running;
      return Launched;
    }

    method Close()
      modifies this
      ensures View() == MarkClosed(old(View()))
    {
      closed := true;
      CancelSupervisor();
    }

    method SetTunnelConfiguration() returns (revision: nat)
      modifies this
      ensures View() == NextConfiguration(old(View())) && revision == View().configurationRevision
    {
      tunnelConfigurationRevision := tunnelConfigurationRevision + 1;
      revision := tunnelConfigurationRevision;
    }

    method PublishTunnelConfigurationEvent(revision: nat)
      modifies this
      ensures View() == PublishEvent(old(View()), revision)
    {
      if publishedSession.Some? && publishedSession == currentSession && revision > publishedSessionRevision {
        publishedSessionRevision := revision;
      }
    }
  }
}
