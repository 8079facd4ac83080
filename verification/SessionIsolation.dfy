/** Supervisor, sessions, writers and readers over the client's session fields, in every
    interleaving. Steps that take the data-plane lock exclusively wait for every reader
    of it; the lifecycle lock makes each step atomic. */
module SessionIsolation {
  import opened Bytes
  import opened ClientSessions

  /** Where runSupervisor stands with the session it installed. */
  datatype Supervisor =
    | Between
    | Installed(session: SessionId)
    | Configured(session: SessionId, revision: nat)
    | Serving(session: SessionId)
    | Clearing(session: SessionId)
    | Leaving
    | Gone

  /** The holder of the write lock: waiting for the data-plane lock, holding it for
      reading, or in the session's write with the ticket it checked. */
  datatype Writing = NoWriter | Waiting | Reading | InWrite(ticket: Ticket)

  /** events are the revisions handed out and not yet announced. */
  datatype State = State(core: Core, supervisor: Supervisor, events: set<nat>, writing: Writing)

  datatype Action =
    | Install(session: SessionId, cancelled: bool)
    | Configure | PublishIt(cancelled: bool, ready: bool) | StartFails | SessionEnds | ClearIt | SupervisorExits
    | NewConfiguration | Announce(revision: nat)
    | StartClient | Terminate(error: Option<nat>) | CancelAfterError | CloseClient
    | TakeWriteLock | TakeDataPlane | CheckTicket(ticket: Ticket, ready: bool) | WriteEnds

  predicate DataPlaneFree(s: State) {
    s.writing == NoWriter || s.writing == Waiting
  }

  /** What the supervisor finds its context to be: cancelled once it was cancelled, and
      perhaps before, by the context it came from. */
  predicate MayGoOn(c: Core, cancelled: bool) {
    c.supervisorContext.Cancelled? ==> cancelled
  }

  predicate Enabled(s: State, a: Action) {
    match a
    case Install(_, cancelled) =>
      s.supervisor == Between && DataPlaneFree(s) && MayGoOn(s.core, cancelled) && !s.core.supervisorContext.NotStarted?
    case Configure => s.supervisor.Installed?
    case PublishIt(cancelled, _) => s.supervisor.Configured? && DataPlaneFree(s) && MayGoOn(s.core, cancelled)
    case StartFails => s.supervisor.Installed?
    case SessionEnds => s.supervisor.Serving?
    case ClearIt => s.supervisor.Clearing? && DataPlaneFree(s)
    case SupervisorExits => !s.supervisor.Gone? && DataPlaneFree(s) && !s.core.supervisorContext.NotStarted?
    case NewConfiguration => true
    case Announce(revision) => revision in s.events && DataPlaneFree(s)
    case StartClient => true
    case Terminate(_) => true
    case CancelAfterError => s.core.terminalError.Some?
    case CloseClient => true
    case TakeWriteLock => s.writing == NoWriter
    case TakeDataPlane => s.writing == Waiting
    case CheckTicket(_, _) => s.writing == Reading
    case WriteEnds => s.writing.InWrite?
  }

  function Next(s: State, a: Action): State
    requires Enabled(s, a)
  {
    match a
    case Install(session, cancelled) =>
      var (core, ok) := SetCurrent(s.core, session, cancelled);
      s.(core := core, supervisor := if ok then Installed(session) else Leaving)
    case Configure =>
      var core := NextConfiguration(s.core);
      s.(core := core, supervisor := Configured(s.supervisor.session, core.configurationRevision))
    case PublishIt(cancelled, ready) =>
      var session := s.supervisor.session;
      var (core, ok) := Publish(s.core, session, s.supervisor.revision, cancelled, ready);
      s.(core := core, supervisor := if ok then Serving(session) else Clearing(session))
    case StartFails => s.(supervisor := Clearing(s.supervisor.session))
    case SessionEnds => s.(supervisor := Clearing(s.supervisor.session))
    case ClearIt => s.(core := Clear(s.core, s.supervisor.session), supervisor := Between)
    case SupervisorExits => s.(core := CloseSupervisor(s.core), supervisor := Gone)
    case NewConfiguration =>
      var core := NextConfiguration(s.core);
      s.(core := core, events := s.events + {core.configurationRevision})
    case Announce(revision) => s.(core := PublishEvent(s.core, revision), events := s.events - {revision})
    case StartClient => s.(core := StartUp(s.core).0)
    case Terminate(error) => s.(core := SetTerminal(s.core, error))
    case CancelAfterError => s.(core := Cancel(s.core))
    case CloseClient => s.(core := MarkClosed(s.core))
    case TakeWriteLock => s.(writing := Waiting)
    case TakeDataPlane => s.(writing := Reading)
    case CheckTicket(ticket, ready) =>
      s.(writing := if TicketCurrent(s.core, ticket, ready) then InWrite(ticket) else NoWriter)
    case WriteEnds => s.(writing := NoWriter)
  }

  function Initial(): State {
    State(FRESH, Between, {}, NoWriter)
  }

  // ---------------------------------------------------------------- invariant

  /** A published session is the current one, of the current generation. */
  predicate PublishedIsCurrent(c: Core) {
    && c.currentGeneration == c.sessionGeneration
    && (c.publishedSession.Some? ==>
          && c.publishedSession == c.currentSession && c.publishedGeneration == c.currentGeneration
          && 1 <= c.initialRevision <= c.publishedRevision <= c.configurationRevision)
  }

  ghost predicate Inv(s: State) {
    && PublishedIsCurrent(s.core)
    && (forall r :: r in s.events ==> 1 <= r <= s.core.configurationRevision)
    && (s.supervisor.Installed? || s.supervisor.Configured? ==> s.core.publishedSession.None?)
    && (s.supervisor.Installed? || s.supervisor.Configured? || s.supervisor.Serving? || s.supervisor.Clearing? ==>
          s.core.currentSession == Some(s.supervisor.session))
    && (s.supervisor.Between? ==> s.core.currentSession.None?)
    && (s.supervisor.Configured? ==> 1 <= s.supervisor.revision <= s.core.configurationRevision)
    && (s.writing.InWrite? ==> Matches(s.core, s.writing.ticket))
  }

  lemma StepInv(s: State, a: Action)
    requires Inv(s) && Enabled(s, a)
    ensures Inv(Next(s, a))
  {
  }

  // ---------------------------------------------------------------- order of states

  /** The life of a generation: installed, published, cleared. */
  function Phase(c: Core): nat {
    if c.currentSession.None? then 2 else if c.publishedSession.None? then 0 else 1
  }

  /** later can follow earlier: an end is final with its reason, a cancelled supervisor
      installs and publishes nothing, generations grow, a generation goes through its
      phases in order with one session, and while it is published its first revision stays
      and its revision does not fall. */
  ghost predicate Precedes(earlier: Core, later: Core) {
    && (Ended(earlier).Some? ==> Ended(later) == Ended(earlier))
    && (earlier.supervisorContext.Cancelled? ==>
          && later.supervisorContext.Cancelled? && later.sessionGeneration == earlier.sessionGeneration
          && (later.publishedSession.Some? ==> earlier.publishedSession.Some?))
    && earlier.sessionGeneration <= later.sessionGeneration
    && (earlier.sessionGeneration == later.sessionGeneration ==>
          && Phase(earlier) <= Phase(later)
          && (later.currentSession.Some? ==> later.currentSession == earlier.currentSession)
          && (Phase(earlier) == 1 && Phase(later) == 1 ==>
                earlier.initialRevision == later.initialRevision && earlier.publishedRevision <= later.publishedRevision))
  }

  lemma StepPrecedes(s: State, a: Action)
    requires Inv(s) && Enabled(s, a)
    ensures Precedes(s.core, Next(s, a).core)
  {
  }

  lemma PrecedesTransitive(a: Core, b: Core, c: Core)
    requires Precedes(a, b) && Precedes(b, c)
    ensures Precedes(a, c)
  {
  }

  // ---------------------------------------------------------------- runs

  ghost predicate Follows(s: State, s': State) {
    exists a :: Enabled(s, a) && s' == Next(s, a)
  }

  ghost predicate IsRun(states: seq<State>) {
    && states != [] && states[0] == Initial()
    && forall i :: 0 < i < |states| ==> Follows(states[i - 1], states[i])
  }

  lemma {:induction false} RunInv(states: seq<State>, i: nat)
    requires IsRun(states) && i < |states|
    ensures Inv(states[i])
    decreases i
  {
    if i > 0 {
      RunInv(states, i - 1);
      assert Follows(states[i - 1], states[i]);
      var a :| Enabled(states[i - 1], a) && states[i] == Next(states[i - 1], a);
      StepInv(states[i - 1], a);
    }
  }

  lemma {:induction false} RunPrecedes(states: seq<State>, i: nat, j: nat)
    requires IsRun(states) && i <= j < |states|
    ensures Precedes(states[i].core, states[j].core)
    decreases j
  {
    hide Enabled, Next;
    if i < j {
      RunPrecedes(states, i, j - 1);
      RunInv(states, j - 1);
      assert Follows(states[j - 1], states[j]);
      var a :| Enabled(states[j - 1], a) && states[j] == Next(states[j - 1], a);
      StepPrecedes(states[j - 1], a);
      PrecedesTransitive(states[i].core, states[j - 1].core, states[j].core);
    }
  }

  /** Once the client is over, every later state is over for the same reason; and once its
      supervisor is cancelled, no session is installed or published any more. */
  lemma EndIsFinal(states: seq<State>, i: nat, j: nat)
    requires IsRun(states) && i <= j < |states|
    ensures Ended(states[i].core).Some? ==> Ended(states[j].core) == Ended(states[i].core)
    ensures states[i].core.supervisorContext.Cancelled? ==>
              && states[j].core.sessionGeneration == states[i].core.sessionGeneration
              && (states[j].core.publishedSession.Some? ==> states[i].core.publishedSession.Some?)
  {
    RunPrecedes(states, i, j);
  }

  /** In every reachable state a published session is the current one with the current
      generation, and while a session write is under way, its session, generation and
      revision are those it was checked against. */
  lemma WritesAreIsolated(states: seq<State>, i: nat)
    requires IsRun(states) && i < |states|
    ensures PublishedIsCurrent(states[i].core)
    ensures states[i].writing.InWrite? ==> Matches(states[i].core, states[i].writing.ticket)
  {
    RunInv(states, i);
  }

  /** A packet tagged in one state and delivered in a later one: in between no session
      was installed or cleared, and whenever the session was published, its revision was
      the one the packet is delivered with. */
  lemma IncomingIsIsolated(states: seq<State>, i: nat, j: nat, k: nat, session: SessionId, tagReady: bool, readReady: bool)
    requires IsRun(states) && i <= k <= j < |states|
    requires TagOf(states[i].core, session, tagReady).Some?
    requires Resolve(states[j].core, TagOf(states[i].core, session, tagReady).value, readReady).Deliver?
    ensures var revision := Resolve(states[j].core, TagOf(states[i].core, session, tagReady).value, readReady).revision;
            var c := states[k].core;
            && c.sessionGeneration == states[i].core.sessionGeneration == states[j].core.sessionGeneration
            && c.currentSession == Some(session)
            && (c.publishedSession.Some? ==> c.publishedSession == Some(session) && c.publishedRevision == revision)
            && states[j].core.publishedRevision == revision
  {
    hide IsRun, Follows;
    RunInv(states, i);
    RunInv(states, j);
    RunInv(states, k);
    RunPrecedes(states, i, j);
    RunPrecedes(states, i, k);
    RunPrecedes(states, k, j);
  }

  /** The other direction: a packet of the current session is let in, and if at a later
      instant the same generation is published with the revision it was tagged with, a
      reader of an open client with a ready session gets it. */
  lemma UndisturbedIsDelivered(states: seq<State>, i: nat, j: nat, session: SessionId)
    requires IsRun(states) && i <= j < |states|
    requires var c := states[i].core; !c.closed && c.terminalError.None? && c.publishedSession == Some(session)
    requires var c := states[j].core;
             && !c.closed && c.terminalError.None? && c.publishedSession.Some?
             && c.sessionGeneration == states[i].core.sessionGeneration
             && c.publishedRevision == states[i].core.publishedRevision
    ensures TagOf(states[i].core, session, true).Some?
    ensures Resolve(states[j].core, TagOf(states[i].core, session, true).value, true)
         == Deliver(states[i].core.publishedRevision)
  {
    hide IsRun, Follows;
    RunInv(states, i);
    RunInv(states, j);
    RunPrecedes(states, i, j);
  }

  /** A ticket taken in one state is good in a later one exactly while the client is open
      and the same generation is published with the same revision and ready. */
  lemma TicketStaysGood(states: seq<State>, i: nat, j: nat, ready: bool)
    requires IsRun(states) && i <= j < |states| && NewTicket(states[i].core, true).Some?
    ensures var c := states[j].core;
            TicketCurrent(c, NewTicket(states[i].core, true).value, ready) <==>
              && !c.closed && c.terminalError.None? && ready && c.publishedSession.Some?
              && c.sessionGeneration == states[i].core.sessionGeneration
              && c.publishedRevision == states[i].core.publishedRevision
  {
    hide IsRun, Follows;
    RunInv(states, i);
    RunInv(states, j);
    RunPrecedes(states, i, j);
  }
}
