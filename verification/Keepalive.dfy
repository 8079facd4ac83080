/** The CSTP timers of cstp_keepalive.go: what to do at an instant, how long to sleep, and
    how many probes a silent peer gets. Times are elapsed nanoseconds. */
module Keepalive {
  datatype TimerAction = NoAction | Probe | DeadPeer | SendKeepalive | Rekey

  const MILLISECOND := 1_000_000
  const HOUR := 3_600_000_000_000

  datatype Timers = Timers(
    dpd: int,
    keepalive: int,
    rekey: int,
    rekeyEnabled: bool,
    lastRekey: int,
    lastTransmit: int,
    lastReceive: int,
    lastDpd: int)

  function DpdDue(k: Timers): int {
    if k.lastDpd > k.lastReceive then k.lastDpd + k.dpd / 2 else k.lastReceive + k.dpd
  }

  datatype Acted = Acted(timers: Timers, action: TimerAction)

  /** action. */
  function Act(k: Timers, elapsed: int): Acted {
    if k.rekeyEnabled && k.rekey > 0 && elapsed >= k.lastRekey + k.rekey then Acted(k.(lastRekey := elapsed), Rekey)
    else if k.dpd > 0 && elapsed > k.lastReceive + 2 * k.dpd then Acted(k, DeadPeer)
    else if k.dpd > 0 && elapsed >= DpdDue(k) then Acted(k.(lastDpd := elapsed), Probe)
    else if k.keepalive > 0 && elapsed >= k.lastTransmit + k.keepalive then Acted(k, SendKeepalive)
    else Acted(k, NoAction)
  }

  predicate RekeyDue(k: Timers, t: int) {
    k.rekeyEnabled && k.rekey > 0 && t >= k.lastRekey + k.rekey
  }

  /** The deadlines nextDelay considers, in its order. */
  function Deadlines(k: Timers): seq<int> {
    (if k.rekeyEnabled && k.rekey > 0 then [k.lastRekey + k.rekey] else [])
    + (if k.dpd > 0 then [DpdDue(k), k.lastReceive + 2 * k.dpd] else [])
    + (if k.keepalive > 0 then [k.lastTransmit + k.keepalive] else [])
  }

  function Least(s: seq<int>): (m: int)
    requires s != []
    ensures m in s && forall x :: x in s ==> m <= x
  {
    if |s| == 1 then s[0]
    else
      var rest := Least(s[1..]);
      assert forall x :: x in s ==> x == s[0] || x in s[1..];
      if s[0] < rest then s[0] else rest
  }

  /** A peer is dead only after its deadline; everything else is due at its deadline. */
  predicate OnlyPeerDeadline(k: Timers, t: int) {
    && k.dpd > 0 && t == k.lastReceive + 2 * k.dpd && t < DpdDue(k)
    && !RekeyDue(k, t)
    && !(k.keepalive > 0 && t >= k.lastTransmit + k.keepalive)
  }

  /** Nothing is to be done exactly before the earliest deadline, or at it when it is the
      peer's alone. */
  lemma ActionMatchesDeadlines(k: Timers, t: int)
    ensures Act(k, t).action == NoAction <==>
              Deadlines(k) == [] || t < Least(Deadlines(k)) || (t == Least(Deadlines(k)) && OnlyPeerDeadline(k, t))
  {
    var ds := Deadlines(k);
    assert k.rekeyEnabled && k.rekey > 0 ==> k.lastRekey + k.rekey in ds;
    assert k.dpd > 0 ==> DpdDue(k) in ds && k.lastReceive + 2 * k.dpd in ds;
    assert k.keepalive > 0 ==> k.lastTransmit + k.keepalive in ds;
    assert forall d :: d in ds ==>
             || (k.rekeyEnabled && k.rekey > 0 && d == k.lastRekey + k.rekey)
             || (k.dpd > 0 && (d == DpdDue(k) || d == k.lastReceive + 2 * k.dpd))
             || (k.keepalive > 0 && d == k.lastTransmit + k.keepalive);
  }

  /** Sleeping as told never oversleeps a deadline and never wakes early, except that a
      missed or just reached one is looked at again after a millisecond. */
  lemma SleepReachesDeadline(k: Timers, t: int, delay: int)
    requires Deadlines(k) != [] && delay == DelayAt(k, t) && t < Least(Deadlines(k))
    ensures t + delay == Least(Deadlines(k))
    ensures forall u :: t <= u < t + delay ==> Act(k, u).action == NoAction
    ensures forall u :: u > t + delay ==> Act(k, u).action != NoAction
  {
    forall u | t <= u < t + delay ensures Act(k, u).action == NoAction {
      ActionMatchesDeadlines(k, u);
    }
    forall u | u > t + delay ensures Act(k, u).action != NoAction {
      ActionMatchesDeadlines(k, u);
    }
  }

  function DelayAt(k: Timers, t: int): int {
    if Deadlines(k) == [] then HOUR
    else if Least(Deadlines(k)) - t <= 0 then MILLISECOND
    else Least(Deadlines(k)) - t
  }

  /** nextDelay: the deadlines collected and their minimum taken in a loop. */
  method NextDelay(k: Timers, elapsed: int) returns (delay: int)
    ensures delay == DelayAt(k, elapsed) && delay > 0
    ensures Deadlines(k) == [] ==> delay == 3_600_000_000_000
    ensures Deadlines(k) != [] ==>
              delay == if Least(Deadlines(k)) > elapsed then Least(Deadlines(k)) - elapsed else 1_000_000
  {
    hide Least;
    var deadlines: seq<int> := [];
    if k.rekeyEnabled && k.rekey > 0 {
      deadlines := deadlines + [k.lastRekey + k.rekey];
    }
    if k.dpd > 0 {
      var dpdDeadline := k.lastReceive + k.dpd;
      if k.lastDpd > k.lastReceive {
        dpdDeadline := k.lastDpd + k.dpd / 2;
      }
      deadlines := deadlines + [dpdDeadline, k.lastReceive + 2 * k.dpd];
    }
    if k.keepalive > 0 {
      deadlines := deadlines + [k.lastTransmit + k.keepalive];
    }
    assert deadlines == Deadlines(k);
    if |deadlines| == 0 {
      return HOUR;
    }
    var next := Earliest(deadlines);
    delay := next - elapsed;
    if delay <= 0 {
      return MILLISECOND;
    }
  }

  method Earliest(deadlines: seq<int>) returns (next: int)
    requires deadlines != []
    ensures next == Least(deadlines)
  {
    hide Least;
    next := deadlines[0];
    for i := 1 to |deadlines|
      invariant next in deadlines && forall j :: 0 <= j < i ==> next <= deadlines[j]
    {
      if deadlines[i] < next {
        next := deadlines[i];
      }
    }
  }

  /** The timers as the code holds them. */
  class KeepaliveState {
    var timers: Timers

    constructor (dpd: int, keepalive: int, rekey: int, rekeyEnabled: bool)
      ensures timers == Timers(dpd, keepalive, rekey, rekeyEnabled, 0, 0, 0, 0)
    {
      timers := Timers(dpd, keepalive, rekey, rekeyEnabled, 0, 0, 0, 0);
    }

    /** The two marks; what they are for is said of runs, below. */
    method MarkReceived(elapsed: int)
      modifies this
      ensures timers == old(timers).(lastReceive := elapsed)
    {
      timers := timers.(lastReceive := elapsed);
    }

    method MarkTransmitted(elapsed: int)
      modifies this
      ensures timers == old(timers).(lastTransmit := elapsed)
    {
      timers := timers.(lastTransmit := elapsed);
    }

    method TakeAction(elapsed: int) returns (action: TimerAction)
      modifies this
      ensures Acted(timers, action) == Act(old(timers), elapsed)
    {
      if timers.rekeyEnabled && timers.rekey > 0 && elapsed >= timers.lastRekey + timers.rekey {
        timers := timers.(lastRekey := elapsed);
        return Rekey;
      }
      if timers.dpd > 0 {
        if elapsed > timers.lastReceive + 2 * timers.dpd {
          return DeadPeer;
        }
        var due := timers.lastReceive + timers.dpd;
        if timers.lastDpd > timers.lastReceive {
          due := timers.lastDpd + timers.dpd / 2;
        }
        if elapsed >= due {
          timers := timers.(lastDpd := elapsed);
          return Probe;
        }
      }
      if timers.keepalive > 0 && elapsed >= timers.lastTransmit + timers.keepalive {
        return SendKeepalive;
      }
      return NoAction;
    }
  }

  // ---------------------------------------------------------------- probes

  datatype Event = Tick(at: int) | Received(at: int) | Transmitted(at: int)

  /** The timers, the last instant, and the probes sent since the last reception. */
  datatype Watch = Watch(timers: Timers, now: int, probes: nat)

  function After(w: Watch, e: Event): Watch {
    match e
    case Tick(at) =>
      var acted := Act(w.timers, at);
      Watch(acted.timers, at, if acted.action == Probe then w.probes + 1 else w.probes)
    case Received(at) => Watch(w.timers.(lastReceive := at), at, 0)
    case Transmitted(at) => Watch(w.timers.(lastTransmit := at), at, w.probes)
  }

  function AfterAll(w: Watch, events: seq<Event>): Watch
    decreases |events|
  {
    if events == [] then w else AfterAll(After(w, events[0]), events[1..])
  }

  /** Time does not run backwards. */
  predicate Ordered(now: int, events: seq<Event>)
    decreases |events|
  {
    events == [] || (now <= events[0].at && Ordered(events[0].at, events[1..]))
  }

  function Begin(dpd: int, keepalive: int, rekey: int, rekeyEnabled: bool): Watch {
    Watch(Timers(dpd, keepalive, rekey, rekeyEnabled, 0, 0, 0, 0), 0, 0)
  }

  /** Each probe but the first waits half a period after the one before, and none is sent
      more than two periods after the last reception. */
  predicate Paced(w: Watch) {
    var k := w.timers;
    && k.lastReceive <= w.now && k.lastDpd <= w.now
    && w.probes <= 3
    && (w.probes == 0 ==> k.lastDpd <= k.lastReceive)
    && (w.probes > 0 ==> k.dpd > 0 && k.lastDpd <= k.lastReceive + 2 * k.dpd)
    && (w.probes == 1 ==> k.lastReceive + k.dpd <= k.lastDpd)
    && (w.probes == 2 ==> k.lastReceive + k.dpd + k.dpd / 2 <= k.lastDpd)
    && (w.probes == 3 ==> k.lastReceive + k.dpd + 2 * (k.dpd / 2) <= k.lastDpd)
  }

  lemma PacedStep(w: Watch, e: Event)
    requires Paced(w) && w.now <= e.at && w.timers.dpd != 1 && w.timers.dpd != 3
    ensures Paced(After(w, e)) && After(w, e).timers.dpd == w.timers.dpd
  {
  }

  lemma {:induction false} PacedRun(w: Watch, events: seq<Event>)
    requires Paced(w) && Ordered(w.now, events) && w.timers.dpd != 1 && w.timers.dpd != 3
    ensures Paced(AfterAll(w, events))
    decreases |events|
  {
    if events != [] {
      PacedStep(w, events[0]);
      PacedRun(After(w, events[0]), events[1..]);
    }
  }

  /** Probes sent since the last reception of a run. */
  function ProbesIn(dpd: int, keepalive: int, rekey: int, rekeyEnabled: bool, events: seq<Event>): nat {
    AfterAll(Begin(dpd, keepalive, rekey, rekeyEnabled), events).probes
  }

  /** Four ticks in which every one probes. */
  function FourTicks(dpd: int): seq<Event> {
    [Tick(dpd), Tick(dpd + dpd / 2), Tick(dpd + 2 * (dpd / 2)), Tick(dpd + 3 * (dpd / 2))]
  }

  /** Over every run a silent peer gets at most three probes between two receptions,
      whatever the other timers do, exactly when the period is not 1 or 3. */
  lemma AtMostThreeProbes(dpd: int)
    ensures dpd != 1 && dpd != 3 <==>
              forall keepalive, rekey, rekeyEnabled, events :: Ordered(0, events) ==>
                ProbesIn(dpd, keepalive, rekey, rekeyEnabled, events) <= 3
  {
    if dpd != 1 && dpd != 3 {
      forall keepalive, rekey, rekeyEnabled, events | Ordered(0, events)
        ensures ProbesIn(dpd, keepalive, rekey, rekeyEnabled, events) <= 3
      {
        PacedRun(Begin(dpd, keepalive, rekey, rekeyEnabled), events);
      }
    } else {
      FourProbes(dpd);
      assert ProbesIn(dpd, 0, 0, false, FourTicks(dpd)) == 4;
    }
  }

  /** The state after n probes of a peer silent from the start. */
  function Probing(dpd: int, at: int, n: nat): Watch {
    Watch(Timers(dpd, 0, 0, false, 0, 0, 0, at), at, n)
  }

  /** A tick at or after the due time, and not after two periods, is one more probe. */
  lemma OneMoreProbe(dpd: int, at: int, n: nat, next: int)
    requires 0 < dpd && next <= 2 * dpd
    requires next >= (if at > 0 then at + dpd / 2 else dpd)
    ensures After(Probing(dpd, at, n), Tick(next)) == Probing(dpd, next, n + 1)
  {
  }

  lemma ProbeFirst(dpd: int, at: int, n: nat, next: int, rest: seq<Event>)
    requires 0 < dpd && next <= 2 * dpd && at <= next
    requires next >= (if at > 0 then at + dpd / 2 else dpd)
    ensures AfterAll(Probing(dpd, at, n), [Tick(next)] + rest) == AfterAll(Probing(dpd, next, n + 1), rest)
    ensures Ordered(at, [Tick(next)] + rest) == Ordered(next, rest)
  {
    hide After;
    OneMoreProbe(dpd, at, n, next);
    assert ([Tick(next)] + rest)[1..] == rest;
  }

  lemma ProbingEnds(dpd: int, at: int, n: nat)
    ensures AfterAll(Probing(dpd, at, n), []).probes == n && Ordered(at, [])
  {
  }

  lemma FourProbes(dpd: int)
    requires dpd == 1 || dpd == 3
    ensures Ordered(0, FourTicks(dpd)) && AfterAll(Begin(dpd, 0, 0, false), FourTicks(dpd)).probes == 4
  {
    hide AfterAll, Ordered;
    var half := dpd / 2;
    var a, b, c, d := dpd, dpd + half, dpd + 2 * half, dpd + 3 * half;
    assert FourTicks(dpd) == [Tick(a)] + ([Tick(b)] + ([Tick(c)] + ([Tick(d)] + [])));
    ProbeFirst(dpd, 0, 0, a, [Tick(b)] + ([Tick(c)] + ([Tick(d)] + [])));
    ProbeFirst(dpd, a, 1, b, [Tick(c)] + ([Tick(d)] + []));
    ProbeFirst(dpd, b, 2, c, [Tick(d)] + []);
    ProbeFirst(dpd, c, 3, d, []);
    ProbingEnds(dpd, d, 4);
  }

  // ---------------------------------------------------------------- what a run does

  /** What the tick at place i of a run does; nothing if a mark stands there. */
  function ActionAt(w: Watch, events: seq<Event>, i: nat): TimerAction
    requires i < |events|
    decreases i
  {
    if i > 0 then ActionAt(After(w, events[0]), events[1..], i - 1)
    else if events[0].Tick? then Act(w.timers, events[0].at).action
    else NoAction
  }

  /** Rekeying is due at place i of a run. */
  predicate RekeyDueAt(w: Watch, events: seq<Event>, i: nat)
    requires i < |events|
    decreases i
  {
    if i > 0 then RekeyDueAt(After(w, events[0]), events[1..], i - 1) else RekeyDue(w.timers, events[0].at)
  }

  /** The time of the last reception before place i, or the one the run started with. */
  function LastReceived(last: int, events: seq<Event>, i: nat): int
    requires i <= |events|
    decreases i
  {
    if i == 0 then last
    else LastReceived(if events[0].Received? then events[0].at else last, events[1..], i - 1)
  }

  function LastTransmitted(last: int, events: seq<Event>, i: nat): int
    requires i <= |events|
    decreases i
  {
    if i == 0 then last
    else LastTransmitted(if events[0].Transmitted? then events[0].at else last, events[1..], i - 1)
  }

  predicate ConcernsPeer(a: TimerAction) {
    a == Probe || a == DeadPeer
  }

  /** No tick of the run concerns the peer. */
  ghost predicate PeerLeftAlone(w: Watch, events: seq<Event>) {
    forall i :: 0 <= i < |events| ==> !ConcernsPeer(ActionAt(w, events, i))
  }

  /** Every tick at which rekeying is not due comes less than a period after the last
      reception. */
  ghost predicate PeerTalks(w: Watch, events: seq<Event>) {
    forall i {:trigger RekeyDueAt(w, events, i)} :: 0 <= i < |events| && events[i].Tick? ==>
      RekeyDueAt(w, events, i) || events[i].at < LastReceived(w.timers.lastReceive, events, i) + w.timers.dpd
  }

  lemma ShiftActions(w: Watch, events: seq<Event>, i: nat)
    requires 0 < i < |events|
    ensures ActionAt(w, events, i) == ActionAt(After(w, events[0]), events[1..], i - 1)
    ensures RekeyDueAt(w, events, i) == RekeyDueAt(After(w, events[0]), events[1..], i - 1)
    ensures LastReceived(w.timers.lastReceive, events, i)
         == LastReceived(After(w, events[0]).timers.lastReceive, events[1..], i - 1)
    ensures LastTransmitted(w.timers.lastTransmit, events, i)
         == LastTransmitted(After(w, events[0]).timers.lastTransmit, events[1..], i - 1)
    ensures events[i] == events[1..][i - 1]
  {
  }

  /** Over every run from a peer not yet probed: it is never probed and never declared dead
      if and only if it talks, whatever rekeying and keepalives do. */
  lemma {:induction false} TalkingPeerIsLeftAlone(w: Watch, events: seq<Event>)
    requires w.timers.dpd > 0 && Ordered(w.now, events)
    requires w.timers.lastDpd <= w.timers.lastReceive <= w.now
    ensures PeerLeftAlone(w, events) <==> PeerTalks(w, events)
    decreases |events|
  {
    if events != [] {
      var next, rest := After(w, events[0]), events[1..];
      assert ConcernsPeer(ActionAt(w, events, 0)) <==>
               events[0].Tick? && !RekeyDueAt(w, events, 0) && events[0].at >= w.timers.lastReceive + w.timers.dpd;
      if !ConcernsPeer(ActionAt(w, events, 0)) {
        TalkingPeerIsLeftAlone(next, rest);
        LeftAloneNext(w, events);
        TalksNext(w, events);
      }
    }
  }

  lemma LeftAloneNext(w: Watch, events: seq<Event>)
    requires events != [] && !ConcernsPeer(ActionAt(w, events, 0))
    ensures PeerLeftAlone(w, events) <==> PeerLeftAlone(After(w, events[0]), events[1..])
  {
    var next, rest := After(w, events[0]), events[1..];
    if PeerLeftAlone(next, rest) {
      forall i | 0 <= i < |events| ensures !ConcernsPeer(ActionAt(w, events, i)) {
        if i > 0 {
          ShiftActions(w, events, i);
        }
      }
    }
    if PeerLeftAlone(w, events) {
      forall i | 0 <= i < |rest| ensures !ConcernsPeer(ActionAt(next, rest, i)) {
        ShiftActions(w, events, i + 1);
      }
    }
  }

  lemma TalksNext(w: Watch, events: seq<Event>)
    requires events != []
    requires events[0].Tick? ==>
               RekeyDueAt(w, events, 0) || events[0].at < w.timers.lastReceive + w.timers.dpd
    ensures PeerTalks(w, events) <==> PeerTalks(After(w, events[0]), events[1..])
  {
    hide Act;
    var next, rest := After(w, events[0]), events[1..];
    PeriodsStay(w, events[0]);
    if PeerTalks(next, rest) {
      forall i | 0 <= i < |events| && events[i].Tick?
        ensures RekeyDueAt(w, events, i) || events[i].at < LastReceived(w.timers.lastReceive, events, i) + w.timers.dpd
      {
        if i > 0 {
          ShiftActions(w, events, i);
        }
      }
    }
    if PeerTalks(w, events) {
      forall i | 0 <= i < |rest| && rest[i].Tick?
        ensures RekeyDueAt(next, rest, i) || rest[i].at < LastReceived(next.timers.lastReceive, rest, i) + next.timers.dpd
      {
        ShiftActions(w, events, i + 1);
      }
    }
  }

  /** No event changes a period, and only marks of its own kind move a mark. */
  lemma PeriodsStay(w: Watch, e: Event)
    ensures var k, l := w.timers, After(w, e).timers;
            && l == k.(lastRekey := l.lastRekey, lastDpd := l.lastDpd, lastReceive := l.lastReceive, lastTransmit := l.lastTransmit)
            && l.lastReceive == (if e.Received? then e.at else k.lastReceive)
            && l.lastTransmit == (if e.Transmitted? then e.at else k.lastTransmit)
  {
  }

  /** In every run a tick rekeys if and only if rekeying is due. */
  lemma {:induction false} RekeyExactly(w: Watch, events: seq<Event>, i: nat)
    requires i < |events| && events[i].Tick?
    ensures ActionAt(w, events, i) == Rekey <==> RekeyDueAt(w, events, i)
    decreases i
  {
    if i > 0 {
      RekeyExactly(After(w, events[0]), events[1..], i - 1);
    }
  }

  /** The mark of the last probe at place i. */
  function LastProbe(w: Watch, events: seq<Event>, i: nat): int
    requires i <= |events|
    decreases i
  {
    if i == 0 then w.timers.lastDpd else LastProbe(After(w, events[0]), events[1..], i - 1)
  }

  /** In every run a tick probes if and only if rekeying is not due, two periods have not
      passed since the last reception, and a period has passed since then or, after a probe,
      half a period since the probe. */
  lemma {:induction false} ProbeExactly(w: Watch, events: seq<Event>, i: nat)
    requires i < |events| && events[i].Tick?
    ensures var received, probed := LastReceived(w.timers.lastReceive, events, i), LastProbe(w, events, i);
            ActionAt(w, events, i) == Probe <==>
              && w.timers.dpd > 0 && !RekeyDueAt(w, events, i) && events[i].at <= received + 2 * w.timers.dpd
              && events[i].at >= (if probed > received then probed + w.timers.dpd / 2 else received + w.timers.dpd)
    ensures ActionAt(w, events, i) == Probe && i + 1 <= |events| ==> LastProbe(w, events, i + 1) == events[i].at
    ensures ActionAt(w, events, i) != Probe ==> LastProbe(w, events, i + 1) == LastProbe(w, events, i)
    decreases i
  {
    if i > 0 {
      PeriodsStay(w, events[0]);
      ProbeExactly(After(w, events[0]), events[1..], i - 1);
    } else {
      assert LastProbe(w, events, 1) == LastProbe(After(w, events[0]), events[1..], 0);
    }
  }

  /** A keepalive goes out only when nothing was transmitted for a whole period. */
  lemma {:induction false} BusyLineNeedsNoKeepalive(w: Watch, events: seq<Event>, i: nat)
    requires i < |events| && ActionAt(w, events, i) == SendKeepalive
    ensures 0 < w.timers.keepalive <= events[i].at - LastTransmitted(w.timers.lastTransmit, events, i)
    decreases i
  {
    if i > 0 {
      PeriodsStay(w, events[0]);
      BusyLineNeedsNoKeepalive(After(w, events[0]), events[1..], i - 1);
    }
  }

  /** A silent peer is probed: any run of ticks and transmissions with a tick between one
      and two periods after its last word has sent a probe, unless rekeying was due at that tick. */
  lemma {:induction false} SilentPeerIsProbed(w: Watch, events: seq<Event>, i: nat)
    requires w.probes == 0 && w.timers.dpd > 0 && w.timers.lastDpd <= w.timers.lastReceive
    requires Ordered(w.now, events) && forall e :: e in events ==> !e.Received?
    requires i < |events| && events[i].Tick?
    requires w.timers.lastReceive + w.timers.dpd <= events[i].at <= w.timers.lastReceive + 2 * w.timers.dpd
    ensures AfterAll(w, events).probes >= 1 || RekeyDueAt(w, events, i)
    decreases |events|
  {
    var next := After(w, events[0]);
    if next.probes > 0 {
      ProbesStay(next, events[1..]);
    } else if i > 0 {
      SilentPeerIsProbed(next, events[1..], i - 1);
    }
  }

  lemma {:induction false} ProbesStay(w: Watch, events: seq<Event>)
    requires forall e :: e in events ==> !e.Received?
    ensures AfterAll(w, events).probes >= w.probes
    decreases |events|
  {
    if events != [] {
      ProbesStay(After(w, events[0]), events[1..]);
    }
  }

  /** In every run, with receptions or without, a tick declares the peer dead if and only if
      it comes more than two periods after the last reception and rekeying is not due. */
  lemma {:induction false} DeadExactly(w: Watch, events: seq<Event>, i: nat)
    requires i < |events| && events[i].Tick?
    ensures ActionAt(w, events, i) == DeadPeer <==>
              && w.timers.dpd > 0 && events[i].at > LastReceived(w.timers.lastReceive, events, i) + 2 * w.timers.dpd
              && !RekeyDueAt(w, events, i)
    decreases i
  {
    if i > 0 {
      PeriodsStay(w, events[0]);
      DeadExactly(After(w, events[0]), events[1..], i - 1);
    }
  }

  /** Rekeying is not due for a whole rekey period after `since`. */
  lemma {:induction false} RekeyRests(w: Watch, events: seq<Event>, i: nat, since: int)
    requires i < |events| && Ordered(w.now, events) && since <= w.now && since <= w.timers.lastRekey
    requires events[i].at < since + w.timers.rekey
    ensures !RekeyDueAt(w, events, i)
    decreases i
  {
    if i > 0 {
      RekeyRests(After(w, events[0]), events[1..], i - 1, since);
    }
  }

  /** Rekeying cannot hide a dead peer: of two ticks more than two periods after its last
      word and less than a rekey period apart, at least one declares it dead. */
  lemma {:induction false} SilentPeerIsDead(w: Watch, events: seq<Event>, i: nat, j: nat)
    requires w.timers.dpd > 0 && Ordered(w.now, events)
    requires i < j < |events| && events[i].Tick? && events[j].Tick?
    requires events[i].at > LastReceived(w.timers.lastReceive, events, i) + 2 * w.timers.dpd
    requires events[j].at > LastReceived(w.timers.lastReceive, events, j) + 2 * w.timers.dpd
    requires w.timers.rekeyEnabled && w.timers.rekey > 0 ==> events[j].at < events[i].at + w.timers.rekey
    ensures ActionAt(w, events, i) == DeadPeer || ActionAt(w, events, j) == DeadPeer
    decreases i
  {
    PeriodsStay(w, events[0]);
    ShiftActions(w, events, j);
    if i > 0 {
      ShiftActions(w, events, i);
      SilentPeerIsDead(After(w, events[0]), events[1..], i - 1, j - 1);
    } else {
      DeadExactly(w, events, 0);
      DeadExactly(w, events, j);
      if RekeyDueAt(w, events, 0) {
        RekeyRests(After(w, events[0]), events[1..], j - 1, events[0].at);
      }
    }
  }

  /** Period 4, a probe at 7 and a tick at 8, two periods after the last reception: the
      scheduler's deadline has come, so it asks for a millisecond, and there is nothing to do. */
  lemma DeadlineWithoutAction()
    ensures var k := After(Begin(4, 0, 0, false), Tick(7)).timers;
            && Act(Begin(4, 0, 0, false).timers, 7).action == Probe
            && Deadlines(k) == [9, 8] && Least(Deadlines(k)) == 8 && OnlyPeerDeadline(k, 8)
            && DelayAt(k, 8) == MILLISECOND && Act(k, 8).action == NoAction
  {
    var k := After(Begin(4, 0, 0, false), Tick(7)).timers;
    assert k == Timers(4, 0, 0, false, 0, 0, 0, 7);
    assert Deadlines(k) == [9, 8];
    var least := Least([9, 8]);
    assert least in [9, 8] && 8 in [9, 8];
  }
}
