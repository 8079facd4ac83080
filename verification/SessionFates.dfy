/** What becomes of packets, tickets and sessions, said of the runs of SessionIsolation: the
    fate of every incoming packet, the life of a session, and what its end puts an end to. */
module SessionFates {
  import opened Bytes
  import opened ClientSessions
  import opened SessionIsolation

  predicate Open(c: Core) {
    !c.closed && c.terminalError.None?
  }

  // ---------------------------------------------------------------- incoming packets

  /** The revision a packet is for: the published one if its session was published and ready
      when it came in, otherwise the one the session was published with first. */
  function RevisionFor(tagged: Core, ready: bool, now: Core): nat {
    if tagged.publishedSession.Some? && ready then tagged.publishedRevision else now.initialRevision
  }

  /** Packets are let in exactly for the current session of an open client, and the fate of
      each at any later instant is settled: dropped if a session was installed since, told
      the end if the client is over, waiting while the session is not published or not
      ready, and otherwise delivered if its revision is the published one, dropped if not. */
  lemma PacketFate(states: seq<State>, i: nat, j: nat, session: SessionId, tagReady: bool, readReady: bool)
    requires IsRun(states) && i <= j < |states|
    ensures TagOf(states[i].core, session, tagReady).Some? <==>
              Open(states[i].core) && states[i].core.currentSession == Some(session)
    ensures TagOf(states[i].core, session, tagReady).Some? ==>
              var c, now := states[i].core, states[j].core;
              var fate := Resolve(now, TagOf(c, session, tagReady).value, readReady);
              if now.sessionGeneration != c.sessionGeneration then fate == Drop
              else if !Open(now) then fate == End(if now.terminalError.Some? then now.terminalError.value else ClientClosed)
              else if now.publishedSession.None? || !readReady then fate == Wait
              else if RevisionFor(c, tagReady, now) == now.publishedRevision then fate == Deliver(now.publishedRevision)
              else fate == Drop
  {
    hide IsRun, Follows;
    RunInv(states, i);
    RunInv(states, j);
    RunPrecedes(states, i, j);
  }

  /** A packet that came in before its session was published waits, and is delivered once
      the session is published and ready, as long as its first revision stands. */
  lemma EarlyPacketIsDelivered(states: seq<State>, i: nat, j: nat, k: nat, session: SessionId, ready: bool)
    requires IsRun(states) && i <= j <= k < |states|
    requires var c := states[i].core; Open(c) && c.currentSession == Some(session) && c.publishedSession.None?
    requires var c := states[j].core;
             Open(c) && c.sessionGeneration == states[i].core.sessionGeneration && c.publishedSession.None?
    requires var c := states[k].core;
             && Open(c) && c.sessionGeneration == states[i].core.sessionGeneration
             && c.publishedSession.Some? && c.publishedRevision == c.initialRevision
    ensures var tag := TagOf(states[i].core, session, ready);
            && tag.Some? && Resolve(states[j].core, tag.value, true) == Wait
            && Resolve(states[k].core, tag.value, true) == Deliver(states[k].core.initialRevision)
  {
    hide IsRun, Follows, Resolve, TagOf;
    PacketFate(states, i, j, session, ready, true);
    PacketFate(states, i, k, session, ready, true);
    RunInv(states, i);
  }

  // ---------------------------------------------------------------- tickets

  /** A ticket is issued if and only if the client is open and its session published and
      ready; it names the published session, generation and revision, and is good at once. */
  lemma TicketsIssued(s: State, ready: bool)
    requires Inv(s)
    ensures NewTicket(s.core, ready).Some? <==> Open(s.core) && s.core.publishedSession.Some? && ready
    ensures NewTicket(s.core, ready).Some? ==>
              && NewTicket(s.core, ready).value
                   == Ticket(s.core.publishedSession.value, s.core.sessionGeneration, s.core.publishedRevision)
              && TicketCurrent(s.core, NewTicket(s.core, ready).value, true)
  {
  }

  // ---------------------------------------------------------------- the life of a session

  /** From any reachable state in which the supervisor of an open client is between sessions:
      installing, configuring and publishing a ready session makes it the published one of
      the next generation with the next revision; its packets are then delivered, and
      tickets for it issued. */
  lemma SessionComesUp(s: State, session: SessionId)
    requires Inv(s) && Open(s.core) && s.supervisor.Between? && s.core.supervisorContext.Running? && DataPlaneFree(s)
    ensures var revision := s.core.configurationRevision + 1;
            && Enabled(s, Install(session, false))
            && var s1 := Next(s, Install(session, false));
            && Enabled(s1, Configure)
            && var s2 := Next(s1, Configure);
            && Enabled(s2, PublishIt(false, true))
            && var c := Next(s2, PublishIt(false, true)).core;
            && c.currentSession == c.publishedSession == Some(session)
            && c.sessionGeneration == s.core.sessionGeneration + 1
            && c.publishedRevision == c.initialRevision == revision
            && TagOf(s1.core, session, true) == Some(Tag(c.sessionGeneration, 0))
            && TagOf(c, session, true) == Some(Tag(c.sessionGeneration, revision))
            && NewTicket(c, true) == Some(Ticket(session, c.sessionGeneration, revision))
  {
  }

  /** A session that is cancelled or not ready when it would be published is not, and nothing
      is published of it. */
  lemma NotPublished(s: State, cancelled: bool, ready: bool)
    requires Inv(s) && Enabled(s, PublishIt(cancelled, ready)) && (cancelled || !ready || !Open(s.core))
    ensures var s' := Next(s, PublishIt(cancelled, ready)); s'.core == s.core && s'.supervisor.Clearing?
  {
  }

  /** Announcing a revision raises the published one to it, and never lowers it; it does
      nothing while no session is published. */
  lemma AnnouncedIsPublished(s: State, revision: nat)
    requires Inv(s) && Enabled(s, Announce(revision))
    ensures var c, c' := s.core, Next(s, Announce(revision)).core;
            c' == if c.publishedSession.None? || revision <= c.publishedRevision then c
                  else c.(publishedRevision := revision)
  {
  }

  /** Nothing comes in or goes out for a session any more: no packet is let in, no ticket
      is issued or good. */
  ghost predicate Silent(c: Core) {
    && (forall session, ready :: TagOf(c, session, ready).None?)
    && (forall ready :: NewTicket(c, ready).None?)
    && (forall t, ready :: !TicketCurrent(c, t, ready))
  }

  /** Clearing the session, the end of the supervisor, an error that ends the client and
      closing it each put an end to all traffic. */
  lemma EndSilences(s: State, a: Action)
    requires Inv(s) && Enabled(s, a) && (a.ClearIt? || a.SupervisorExits? || a.Terminate? || a.CloseClient?)
    ensures Silent(Next(s, a).core)
  {
  }

  /** A new session silences the one before it until it is published itself: its own packets
      are let in, no ticket is good. */
  lemma InstallReplaces(s: State, session: SessionId, cancelled: bool)
    requires Inv(s) && Enabled(s, Install(session, cancelled))
    ensures var c, c' := s.core, Next(s, Install(session, cancelled)).core;
            if c.closed || cancelled then c' == c
            else
              && c'.currentSession == Some(session) && c'.sessionGeneration == c.sessionGeneration + 1
              && c'.publishedSession.None? && c'.configurationRevision == c.configurationRevision
              && (forall t, ready :: !TicketCurrent(c', t, ready))
              && (forall other, ready :: TagOf(c', other, ready).Some? ==> other == session)
  {
  }

  // ---------------------------------------------------------------- beginning and end

  /** An open client is started once; what ends it first is the reason it reports. */
  lemma FirstReasonCounts(c: Core, error: Option<nat>, other: Option<nat>)
    ensures StartUp(c).1 == Launched <==> c.supervisorContext.NotStarted? && !c.closed
    ensures StartUp(c).1 == Launched ==> StartUp(StartUp(c).0) == (StartUp(c).0, AlreadyStarted)
    ensures StartUp(c).1 == StartRefused <==> c.supervisorContext.NotStarted? && c.closed
    ensures Open(c) ==>
              && Ended(SetTerminal(c, error)) == Some(if error.None? then SessionTerminated else Cause(error.value))
              && Ended(SetTerminal(SetTerminal(c, error), other)) == Ended(SetTerminal(c, error))
              && Ended(MarkClosed(SetTerminal(c, error))) == Ended(SetTerminal(c, error))
              && Ended(MarkClosed(c)) == Ended(SetTerminal(MarkClosed(c), error)) == Some(ClientClosed)
    ensures !c.supervisorContext.NotStarted? ==> MarkClosed(c).supervisorContext == Cancel(c).supervisorContext == Cancelled
  {
  }
}
