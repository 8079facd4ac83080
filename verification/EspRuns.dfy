/** Every run of seal, open, install and destroy on one key set with replay protection
    on: what is delivered, what is sent, and how a superseded association dies out. */
module EspRuns {
  import opened Bytes
  import opened ReplayWindows
  import opened EspAssociations
  import opened EspKeySets

  datatype Op =
    | SealOp(payload: seq<Byte>, nextHeader: Byte)
    | OpenOp(datagram: seq<Byte>)
    | InstallOp(config: Config, iv: seq<Byte>)
    | DestroyOp

  /** One datagram: the association it went through and its sequence number. */
  datatype Event = Event(association: int, sequence: nat)

  /** The key set and what an observer of the run remembers. Associations are numbered
      by the installs before them: the current pair is `installs`, the previous inbound
      one `installs - 1`. The two `seen` sets are the numbers their windows accepted,
      and `seenBefore`, `nextBefore` record the previous one when it was superseded. */
  datatype World = World(
    keys: KeySet,
    installs: nat,
    currentSeen: set<nat>,
    previousSeen: set<nat>,
    seenBefore: set<nat>,
    nextBefore: nat,
    delivered: seq<Event>,
    sent: seq<Event>)

  ghost function Start(keys: KeySet): World {
    World(keys, 0, {}, {}, {}, 0, [], [])
  }

  ghost predicate ValidOp(op: Op) {
    op.InstallOp? ==> ValidConfig(op.config) && |op.iv| == BLOCK && !op.config.disableReplayProtection
  }

  function SequenceOf(datagram: seq<Byte>): nat
    requires |datagram| >= 8
  {
    FromBigEndian(datagram[4..8])
  }

  /** The association an incoming datagram is handed to, if any. */
  ghost function Target(k: KeySet, datagram: seq<Byte>): Option<Inbound> {
    if k.destroyed || !k.currentInbound.valid || |datagram| < 8 then None
    else SelectInbound(k, FromBigEndian(datagram[..4]), SequenceOf(datagram))
  }

  /** Its window accepts the datagram's number. */
  ghost predicate Accepts(c: Crypto, k: KeySet, datagram: seq<Byte>)
    requires LawfulCrypto(c) && ValidKeys(k)
  {
    var target := Target(k, datagram);
    && target.Some? && InboundOf(k, target.value).valid
    && Authentic(c, InboundOf(k, target.value), datagram)
    && EspAccept(InboundOf(k, target.value).replay, SequenceOf(datagram)).accepted
  }

  /** The association a datagram went through, as the observer numbers it. */
  ghost function EventOf(w: World, datagram: seq<Byte>): Event
    requires |datagram| >= 8
  {
    Event(if Target(w.keys, datagram) == Some(Previous) then w.installs - 1 else w.installs, SequenceOf(datagram))
  }

  /** Every open that returns a payload is logged; every number a window accepts is seen. */
  ghost function StepOpen(c: Crypto, w: World, datagram: seq<Byte>): World
    requires LawfulCrypto(c) && ValidKeys(w.keys)
  {
    var outcome := OpenDatagram(c, w.keys, datagram);
    var accepts := Accepts(c, w.keys, datagram);
    var which := Target(w.keys, datagram);
    w.(keys := outcome.keys,
       currentSeen := w.currentSeen + (if accepts && which == Some(Current) then {SequenceOf(datagram)} else {}),
       previousSeen := w.previousSeen + (if accepts && which == Some(Previous) then {SequenceOf(datagram)} else {}),
       delivered := w.delivered + if outcome.result.Ok? then [EventOf(w, datagram)] else [])
  }

  /** A seal is remembered by the number its datagram carries on the wire. */
  ghost function StepSeal(c: Crypto, w: World, payload: seq<Byte>, nextHeader: Byte): World
    requires LawfulCrypto(c) && ValidKeys(w.keys)
  {
    var outcome := SealPayload(c, w.keys, payload, nextHeader);
    w.(keys := outcome.keys,
       sent := w.sent + if outcome.result.Ok? then [Event(w.installs, SequenceOf(outcome.result.value))] else [])
  }

  ghost function StepInstall(w: World, config: Config, iv: seq<Byte>): World
    requires ValidKeys(w.keys) && ValidConfig(config) && |iv| == BLOCK
  {
    match Install(w.keys, config, iv)
    case Err(_) => w
    case Ok(keys) =>
      World(keys, w.installs + 1, {}, w.currentSeen, w.currentSeen, w.keys.currentInbound.replay.nextSequence,
            w.delivered, w.sent)
  }

  ghost function Step(c: Crypto, w: World, op: Op): (r: World)
    requires LawfulCrypto(c) && ValidKeys(w.keys) && ValidOp(op)
    ensures ValidKeys(r.keys)
  {
    match op
    case SealOp(payload, nextHeader) => StepSeal(c, w, payload, nextHeader)
    case OpenOp(datagram) => StepOpen(c, w, datagram)
    case InstallOp(config, iv) => StepInstall(w, config, iv)
    case DestroyOp => w.(keys := Destroy(w.keys))
  }

  // ---------------------------------------------------------------- invariant

  ghost predicate Distinct(events: seq<Event>) {
    forall i, j :: 0 <= i < j < |events| ==> events[i] != events[j]
  }

  ghost predicate DeliveredSeen(w: World) {
    forall e :: e in w.delivered ==>
      && e.association <= w.installs
      && (e.association == w.installs ==> e.sequence in w.currentSeen)
      && (e.association + 1 == w.installs ==> e.sequence in w.previousSeen)
  }

  /** The numbers of one association among these events, in order. */
  function NumbersOf(events: seq<Event>, association: int): seq<nat> {
    if events == [] then []
    else
      NumbersOf(events[..|events| - 1], association) +
      if events[|events| - 1].association == association then [events[|events| - 1].sequence] else []
  }

  /** 0, 1, 2, and so on, and no further than 32 bits go. */
  ghost predicate CountsUp(numbers: seq<nat>) {
    |numbers| <= MAX_SEQUENCE + 1 && forall i :: 0 <= i < |numbers| ==> numbers[i] == i
  }

  /** Under every association the datagrams sealed so far carry 0, 1, 2, and so on. */
  ghost predicate SentInOrder(events: seq<Event>) {
    forall a :: CountsUp(NumbersOf(events, a))
  }

  ghost predicate SealedBelow(w: World) {
    && |NumbersOf(w.sent, w.installs)| == w.keys.outbound.sequence
    && forall e :: e in w.sent ==>
         && e.association <= w.installs
         && (e.association == w.installs ==> e.sequence < w.keys.outbound.sequence)
  }

  /** The numbers accepted on the superseded association since it was superseded. */
  ghost function Lingering(w: World): set<nat> {
    w.previousSeen - w.seenBefore
  }

  ghost predicate Superseded(w: World) {
    && w.seenBefore <= w.previousSeen
    && w.nextBefore <= w.keys.previousInbound.replay.nextSequence
    && (w.nextBefore > 0 ==> w.nextBefore - 1 in w.seenBefore)
    && (w.keys.previousInbound.valid ==> w.installs > 0 && w.keys.previousLimit == w.nextBefore + OVERLAP)
    && (forall s :: s in Lingering(w) ==> w.nextBefore <= s + 65 && s < w.nextBefore + OVERLAP)
  }

  ghost predicate Live(w: World) {
    && !w.keys.disableReplayProtection
    && w.keys.outbound.valid && w.keys.currentInbound.valid
    && EspRepresents(w.keys.currentInbound.replay, w.currentSeen)
    && EspRepresents(w.keys.previousInbound.replay, w.previousSeen)
    && Superseded(w)
    && DeliveredSeen(w)
    && SealedBelow(w)
  }

  ghost predicate Inv(w: World) {
    && ValidKeys(w.keys)
    && Distinct(w.delivered)
    && Distinct(w.sent)
    && SentInOrder(w.sent)
    && LingeringBound(w)
    && (!w.keys.destroyed ==> Live(w))
  }

  /** At most 96 numbers are accepted on an association after it was superseded. */
  ghost predicate LingeringBound(w: World) {
    |Lingering(w)| <= 96
  }

  lemma {:induction false} IntervalSize(s: set<nat>, lo: int, hi: int)
    requires lo <= hi && forall x :: x in s ==> lo <= x < hi
    ensures |s| <= hi - lo
    decreases hi - lo
  {
    if lo == hi {
      assert s == {};
    } else if hi - 1 >= 0 && hi - 1 in s {
      IntervalSize(s - {hi - 1}, lo, hi - 1);
    } else {
      IntervalSize(s, lo, hi - 1);
    }
  }

  /** The 97 numbers from 65 below to 31 above the old limit, less the one accepted
      last before the change. */
  lemma LingeringCount(w: World)
    requires Superseded(w)
    ensures LingeringBound(w)
  {
    var s, n := Lingering(w), w.nextBefore;
    if n == 0 {
      IntervalSize(s, 0, OVERLAP);
    } else {
      assert n - 1 !in s;
      IntervalSize(s + {n - 1}, n - 65, n + OVERLAP);
    }
  }

  lemma AppendDistinct(events: seq<Event>, e: Event)
    requires Distinct(events) && e !in events
    ensures Distinct(events + [e])
  {
  }

  // ---------------------------------------------------------------- steps

  lemma StartInv(config: Config, iv: seq<Byte>)
    requires ValidConfig(config) && |iv| == BLOCK && !config.disableReplayProtection
    requires NewKeySet(config, iv).Ok?
    ensures Inv(Start(NewKeySet(config, iv).value))
  {
  }

  ghost function WithReplay(k: KeySet, which: Inbound, window: EspWindow): KeySet {
    match which
    case Current => k.(currentInbound := k.currentInbound.(replay := window))
    case Previous => k.(previousInbound := k.previousInbound.(replay := window))
  }

  /** An accepted number moves one window and nothing else. */
  lemma AcceptedMoves(c: Crypto, k: KeySet, datagram: seq<Byte>)
    requires LawfulCrypto(c) && ValidKeys(k) && Accepts(c, k, datagram)
    ensures var which := Target(k, datagram).value;
            OpenDatagram(c, k, datagram).keys
              == WithReplay(k, which, EspAccept(InboundOf(k, which).replay, SequenceOf(datagram)).window)
  {
    hide Decrypted, Strip, EspAccept, LawfulCrypto, WellFormed;
  }

  /** An accepted number on the association in use keeps everything in step. */
  lemma OpenCurrentInv(c: Crypto, w: World, datagram: seq<Byte>)
    requires LawfulCrypto(c) && Inv(w) && !w.keys.destroyed
    requires Accepts(c, w.keys, datagram) && Target(w.keys, datagram) == Some(Current)
    ensures Inv(StepOpen(c, w, datagram))
  {
    hide OpenDatagram, EspRepresents, EspAccept, LawfulCrypto, WellFormed, Authentic;
    var sequence := SequenceOf(datagram);
    AcceptedMoves(c, w.keys, datagram);
    EspAcceptExact(w.keys.currentInbound.replay, w.currentSeen, sequence);
    assert Event(w.installs, sequence) !in w.delivered && w.delivered + [] == w.delivered;
    assert w.previousSeen + {} == w.previousSeen;
    if OpenDatagram(c, w.keys, datagram).result.Ok? {
      AppendDistinct(w.delivered, Event(w.installs, sequence));
    }
  }

  lemma OpenPreviousInv(c: Crypto, w: World, datagram: seq<Byte>)
    requires LawfulCrypto(c) && Inv(w) && !w.keys.destroyed
    requires Accepts(c, w.keys, datagram) && Target(w.keys, datagram) == Some(Previous)
    ensures Inv(StepOpen(c, w, datagram))
  {
    hide OpenDatagram, EspRepresents, EspAccept, LawfulCrypto, WellFormed, Authentic, LingeringBound;
    var sequence := SequenceOf(datagram);
    AcceptedMoves(c, w.keys, datagram);
    EspAcceptExact(w.keys.previousInbound.replay, w.previousSeen, sequence);
    assert Event(w.installs - 1, sequence) !in w.delivered && w.delivered + [] == w.delivered;
    assert w.currentSeen + {} == w.currentSeen;
    if OpenDatagram(c, w.keys, datagram).result.Ok? {
      AppendDistinct(w.delivered, Event(w.installs - 1, sequence));
    }
    SupersededStep(w, StepOpen(c, w, datagram), sequence);
  }

  lemma SupersededStep(w: World, w': World, sequence: nat)
    requires Superseded(w) && EspAdmits(w.keys.previousInbound.replay.nextSequence, w.previousSeen, sequence)
    requires sequence < w.nextBefore + OVERLAP
    requires w'.keys == WithReplay(w.keys, Previous, w'.keys.previousInbound.replay)
    requires w.keys.previousInbound.replay.nextSequence <= w'.keys.previousInbound.replay.nextSequence
    requires w'.previousSeen == w.previousSeen + {sequence} && w'.seenBefore == w.seenBefore
    requires w'.nextBefore == w.nextBefore && w'.installs == w.installs
    ensures Superseded(w') && LingeringBound(w')
  {
    assert Lingering(w') == Lingering(w) + {sequence};
    LingeringCount(w');
  }

  /** A datagram that is not accepted changes nothing: no association moves. */
  lemma OpenRefused(c: Crypto, w: World, datagram: seq<Byte>)
    requires LawfulCrypto(c) && Inv(w) && !w.keys.destroyed
    requires !Accepts(c, w.keys, datagram)
    ensures StepOpen(c, w, datagram) == w && OpenDatagram(c, w.keys, datagram).result.Err?
  {
    hide Decrypted, Strip, EspRepresents, EspAccept, LawfulCrypto, WellFormed;
    if Target(w.keys, datagram).Some? {
      var which := Target(w.keys, datagram).value;
      var seen := if which.Current? then w.currentSeen else w.previousSeen;
      EspAcceptExact(InboundOf(w.keys, which).replay, seen, SequenceOf(datagram));
    }
  }

  lemma NumbersAppend(events: seq<Event>, e: Event, association: int)
    ensures NumbersOf(events + [e], association)
         == NumbersOf(events, association) + if e.association == association then [e.sequence] else []
  {
    assert (events + [e])[..|events|] == events;
  }

  lemma {:induction false} NumbersAbsent(events: seq<Event>, association: int)
    requires forall e :: e in events ==> e.association != association
    ensures NumbersOf(events, association) == []
  {
    if events != [] {
      NumbersAbsent(events[..|events| - 1], association);
    }
  }

  /** One more datagram under an association that has sent `next` of them. */
  lemma SentOneMore(events: seq<Event>, association: int, next: nat)
    requires SentInOrder(events) && |NumbersOf(events, association)| == next <= MAX_SEQUENCE
    ensures SentInOrder(events + [Event(association, next)])
    ensures |NumbersOf(events + [Event(association, next)], association)| == next + 1
  {
    hide NumbersOf;
    forall a ensures CountsUp(NumbersOf(events + [Event(association, next)], a)) {
      NumbersAppend(events, Event(association, next), a);
      assert CountsUp(NumbersOf(events, a));
    }
    NumbersAppend(events, Event(association, next), association);
  }

  /** What a seal that succeeds puts on the wire is the counter, not yet used up. */
  lemma SealedNumber(c: Crypto, k: KeySet, payload: seq<Byte>, nextHeader: Byte)
    requires LawfulCrypto(c) && ValidKeys(k) && SealPayload(c, k, payload, nextHeader).result.Ok?
    ensures var outcome := SealPayload(c, k, payload, nextHeader);
            && |outcome.result.value| >= 8
            && SequenceOf(outcome.result.value) == k.outbound.sequence <= MAX_SEQUENCE
            && outcome.keys == k.(outbound := outcome.keys.outbound)
            && outcome.keys.outbound.sequence == k.outbound.sequence + 1
  {
    hide Datagram, NextIv, LawfulCrypto, FromBigEndian;
    DatagramFields(c, k.outbound, payload, ChooseHeader(payload, nextHeader).value);
  }

  lemma SealInv(c: Crypto, w: World, payload: seq<Byte>, nextHeader: Byte)
    requires LawfulCrypto(c) && Inv(w) && !w.keys.destroyed
    ensures Inv(StepSeal(c, w, payload, nextHeader))
  {
    hide Datagram, NextIv, EspRepresents, LawfulCrypto, WellFormed, NumbersOf, SentInOrder, SequenceOf;
    if SealPayload(c, w.keys, payload, nextHeader).result.Ok? {
      SealedNumber(c, w.keys, payload, nextHeader);
      var e := Event(w.installs, w.keys.outbound.sequence);
      assert e !in w.sent;
      AppendDistinct(w.sent, e);
      SentOneMore(w.sent, w.installs, w.keys.outbound.sequence);
    } else {
      assert w.sent + [] == w.sent;
    }
  }

  lemma InstallInv(w: World, config: Config, iv: seq<Byte>)
    requires Inv(w) && !w.keys.destroyed
    requires ValidConfig(config) && |iv| == BLOCK && !config.disableReplayProtection
    ensures Inv(StepInstall(w, config, iv))
  {
    hide WellFormed, NumbersOf;
    var w' := StepInstall(w, config, iv);
    if Install(w.keys, config, iv).Ok? {
      assert Lingering(w') == {};
      NumbersAbsent(w.sent, w'.installs);
    }
  }

  lemma StepInv(c: Crypto, w: World, op: Op)
    requires LawfulCrypto(c) && Inv(w) && ValidOp(op)
    ensures Inv(Step(c, w, op))
  {
    if w.keys.destroyed {
      DestroyedStays(c, w, op);
    } else {
      match op
      case SealOp(payload, nextHeader) => SealInv(c, w, payload, nextHeader);
      case InstallOp(config, iv) => InstallInv(w, config, iv);
      case DestroyOp =>
        assert Lingering(Step(c, w, op)) == Lingering(w);
      case OpenOp(datagram) =>
        if !Accepts(c, w.keys, datagram) {
          OpenRefused(c, w, datagram);
        } else if Target(w.keys, datagram) == Some(Current) {
          OpenCurrentInv(c, w, datagram);
        } else {
          OpenPreviousInv(c, w, datagram);
        }
    }
  }

  /** Nothing happens any more once the keys are destroyed. */
  lemma DestroyedStays(c: Crypto, w: World, op: Op)
    requires LawfulCrypto(c) && ValidKeys(w.keys) && ValidOp(op) && w.keys.destroyed
    ensures Step(c, w, op) == w
  {
    assert w.sent + [] == w.sent;
  }

  // ---------------------------------------------------------------- runs

  ghost function Run(c: Crypto, w: World, ops: seq<Op>): (r: World)
    requires LawfulCrypto(c) && Inv(w)
    requires forall op :: op in ops ==> ValidOp(op)
    ensures Inv(r)
    decreases |ops|
  {
    if ops == [] then w
    else
      StepInv(c, w, ops[0]);
      Run(c, Step(c, w, ops[0]), ops[1..])
  }

  /** In every run from a new key set no number is opened twice on one association, not
      even across a rekey; the datagrams sealed under one carry 0, 1, 2, ... in their
      32-bit fields, so none twice; and a superseded association accepts at most 96 more. */
  lemma RunIsSafe(c: Crypto, config: Config, iv: seq<Byte>, ops: seq<Op>)
    requires LawfulCrypto(c) && ValidConfig(config) && |iv| == BLOCK && !config.disableReplayProtection
    requires NewKeySet(config, iv).Ok? && forall op :: op in ops ==> ValidOp(op)
    ensures var start := Start(NewKeySet(config, iv).value);
            && Inv(start)
            && var end := Run(c, start, ops);
               && Distinct(end.delivered)
               && Distinct(end.sent)
               && SentInOrder(end.sent)
               && |end.previousSeen - end.seenBefore| <= 96
  {
    StartInv(config, iv);
  }

  /** After every run: with a payload that can be sealed, the next seal carries the number
      of datagrams sent so far under the association, until there are 2^32 of them; from
      then on it reports exhaustion and sends nothing. */
  lemma SealsUntilExhausted(c: Crypto, config: Config, iv: seq<Byte>, ops: seq<Op>, payload: seq<Byte>, nextHeader: Byte)
    requires LawfulCrypto(c) && ValidConfig(config) && |iv| == BLOCK && !config.disableReplayProtection
    requires NewKeySet(config, iv).Ok? && forall op :: op in ops ==> ValidOp(op)
    requires Sealable(payload, nextHeader)
    ensures var start := Start(NewKeySet(config, iv).value);
            && Inv(start)
            && var end := Run(c, start, ops);
               var count := |NumbersOf(end.sent, end.installs)|;
               var outcome := SealPayload(c, end.keys, payload, nextHeader);
               if end.keys.destroyed then outcome == SealOutcome(end.keys, Err(KeysDestroyed))
               else if count == MAX_SEQUENCE + 1 then outcome == SealOutcome(end.keys, Err(SequenceExhausted))
               else count <= MAX_SEQUENCE && outcome.result.Ok? && |outcome.result.value| >= 8
                    && SequenceOf(outcome.result.value) == count
  {
    hide NumbersOf, LawfulCrypto, Datagram, NextIv, FromBigEndian;
    StartInv(config, iv);
    var end := Run(c, Start(NewKeySet(config, iv).value), ops);
    assert CountsUp(NumbersOf(end.sent, end.installs));
    if SealPayload(c, end.keys, payload, nextHeader).result.Ok? {
      SealedNumber(c, end.keys, payload, nextHeader);
    }
  }

  /** Seen from the history: not accepted yet, not too far behind, and, together with the
      numbers the new association has gone through, less than 32 ahead of where the old one
      stood when it was superseded. */
  ghost predicate StillAdmitted(w: World, sequence: nat) {
    && !w.keys.destroyed && w.keys.previousInbound.valid
    && sequence + w.keys.currentInbound.replay.nextSequence < w.nextBefore + OVERLAP
    && EspAdmits(w.keys.previousInbound.replay.nextSequence, w.previousSeen, sequence)
  }

  /** The datagram is for the superseded association, and it is authentic. */
  ghost predicate ForSuperseded(c: Crypto, k: KeySet, datagram: seq<Byte>)
    requires LawfulCrypto(c) && ValidKeys(k)
  {
    && k.previousInbound.valid && |datagram| >= 8
    && FromBigEndian(datagram[..4]) == k.previousInbound.spi != k.currentInbound.spi
    && Authentic(c, k.previousInbound, datagram)
  }

  /** openBuffer accepts a datagram on the superseded association. */
  ghost predicate AcceptsOnSuperseded(c: Crypto, k: KeySet, datagram: seq<Byte>)
    requires LawfulCrypto(c) && ValidKeys(k)
  {
    Target(k, datagram) == Some(Previous) && Accepts(c, k, datagram)
  }

  /** What is accepted on the superseded association is exactly what is authentic for it
      and still admitted. */
  lemma AcceptedIffAdmitted(c: Crypto, w: World, datagram: seq<Byte>)
    requires LawfulCrypto(c) && Inv(w)
    ensures AcceptsOnSuperseded(c, w.keys, datagram) <==>
              ForSuperseded(c, w.keys, datagram) && StillAdmitted(w, SequenceOf(datagram))
  {
    hide EspRepresents, EspAccept, LawfulCrypto, WellFormed, Authentic, FromBigEndian, NumbersOf;
    if !w.keys.destroyed && |datagram| >= 8 {
      EspAcceptExact(w.keys.previousInbound.replay, w.previousSeen, SequenceOf(datagram));
    }
  }

  /** Once the new association's next number has reached 32 more than the old one's was,
      nothing is accepted on the old one any more, whatever its own number. */
  lemma SupersededDiesOut(c: Crypto, w: World, datagram: seq<Byte>)
    requires LawfulCrypto(c) && Inv(w) && AcceptsOnSuperseded(c, w.keys, datagram)
    ensures |datagram| >= 8
    ensures SequenceOf(datagram) + w.keys.currentInbound.replay.nextSequence < w.nextBefore + OVERLAP
    ensures w.keys.currentInbound.replay.nextSequence < w.nextBefore + OVERLAP
  {
    hide Accepts, Inv;
    AcceptedIffAdmitted(c, w, datagram);
  }

  /** Until the next install the numbers still admitted only become fewer. */
  lemma AdmittedShrinks(c: Crypto, w: World, op: Op, sequence: nat)
    requires LawfulCrypto(c) && Inv(w) && ValidOp(op) && !op.InstallOp?
    requires StillAdmitted(Step(c, w, op), sequence)
    ensures StillAdmitted(w, sequence)
  {
    hide Decrypted, Strip, EspRepresents, EspAccept, LawfulCrypto, WellFormed;
    if w.keys.destroyed {
      DestroyedStays(c, w, op);
    } else if op.OpenOp? {
      if Accepts(c, w.keys, op.datagram) {
        var which := Target(w.keys, op.datagram).value;
        var seen := if which.Current? then w.currentSeen else w.previousSeen;
        EspAcceptExact(InboundOf(w.keys, which).replay, seen, SequenceOf(op.datagram));
      } else {
        OpenRefused(c, w, op.datagram);
      }
    }
  }

  /** No operation but an install, or the end of all keys, changes the keys and names of an
      inbound association. */
  lemma InboundKept(c: Crypto, w: World, op: Op)
    requires LawfulCrypto(c) && ValidKeys(w.keys) && ValidOp(op) && !op.InstallOp? && !op.DestroyOp?
    ensures var k, l := w.keys, Step(c, w, op).keys;
            && l.previousInbound == k.previousInbound.(replay := l.previousInbound.replay)
            && l.currentInbound == k.currentInbound.(replay := l.currentInbound.replay)
  {
    hide Open, Seal, AfterSeal, LawfulCrypto, WellFormed, EspAccept, Authentic, FromBigEndian;
  }

  /** Until the next install, what openBuffer accepts on the superseded association after
      an operation it would have accepted before it. */
  lemma AcceptedShrinks(c: Crypto, w: World, op: Op, datagram: seq<Byte>)
    requires LawfulCrypto(c) && Inv(w) && ValidOp(op) && !op.InstallOp?
    requires AcceptsOnSuperseded(c, Step(c, w, op).keys, datagram)
    ensures AcceptsOnSuperseded(c, w.keys, datagram)
  {
    hide Accepts, Live, Step, LawfulCrypto, WellFormed, FromBigEndian;
    StepInv(c, w, op);
    AcceptedIffAdmitted(c, Step(c, w, op), datagram);
    AcceptedIffAdmitted(c, w, datagram);
    AdmittedShrinks(c, w, op, SequenceOf(datagram));
    NotAfterDestroy(c, w, op);
    if !op.DestroyOp? {
      InboundKept(c, w, op);
    }
  }

  lemma NotAfterDestroy(c: Crypto, w: World, op: Op)
    requires LawfulCrypto(c) && Inv(w) && ValidOp(op)
    ensures op.DestroyOp? ==> Step(c, w, op).keys.destroyed
  {
  }

  /** The same over every run without an install. */
  lemma {:induction false} AcceptedShrinksOverRuns(c: Crypto, w: World, ops: seq<Op>, datagram: seq<Byte>)
    requires LawfulCrypto(c) && Inv(w) && forall op :: op in ops ==> ValidOp(op) && !op.InstallOp?
    requires AcceptsOnSuperseded(c, Run(c, w, ops).keys, datagram)
    ensures AcceptsOnSuperseded(c, w.keys, datagram)
    decreases |ops|
  {
    hide AcceptsOnSuperseded, Step, Live, NumbersOf;
    if ops != [] {
      StepInv(c, w, ops[0]);
      AcceptedShrinksOverRuns(c, Step(c, w, ops[0]), ops[1..], datagram);
      AcceptedShrinks(c, w, ops[0], datagram);
    }
  }

  /** What openBuffer accepts on the association just superseded: the authentic datagrams
      whose numbers, not seen yet, lie from 65 below its next one to 31 above, no more and
      no less. */
  lemma AcceptedAfterInstall(c: Crypto, w: World, config: Config, iv: seq<Byte>, datagram: seq<Byte>)
    requires LawfulCrypto(c) && Inv(w) && ValidConfig(config) && |iv| == BLOCK && !config.disableReplayProtection
    requires Install(w.keys, config, iv).Ok?
    requires |datagram| >= 8 && FromBigEndian(datagram[..4]) == w.keys.currentInbound.spi != config.inbound.spi
    requires w.keys.currentInbound.valid && Authentic(c, w.keys.currentInbound, datagram)
    ensures var next, sequence := w.keys.currentInbound.replay.nextSequence, SequenceOf(datagram);
            AcceptsOnSuperseded(c, StepInstall(w, config, iv).keys, datagram) <==>
              sequence !in w.currentSeen && next <= sequence + 65 && sequence < next + 32
  {
    hide LawfulCrypto, Authentic, FromBigEndian, AcceptsOnSuperseded, NumbersOf, EspRepresents;
    var w' := StepInstall(w, config, iv);
    InstallInv(w, config, iv);
    AcceptedIffAdmitted(c, w', datagram);
  }

  /** An admitted number is not only not refused: a datagram the peer sealed under the
      superseded association is opened to its payload. */
  lemma SupersededStillOpens(c: Crypto, w: World, sender: Association, payload: seq<Byte>, nextHeader: Byte)
    requires LawfulCrypto(c) && Inv(w) && WellFormed(sender) && sender.valid && sender.sequence <= MAX_SEQUENCE
    requires Matches(sender, w.keys.previousInbound)
    requires sender.spi != w.keys.currentInbound.spi && payload != [] && KnownHeader(nextHeader)
    requires StillAdmitted(w, sender.sequence)
    ensures OpenDatagram(c, w.keys, Datagram(c, sender, payload, nextHeader)).result == Ok(Opened(nextHeader, payload))
  {
    hide Datagram, Open, EspAccept, FromBigEndian, Plaintext, LawfulCrypto, EspRepresents;
    DatagramFields(c, sender, payload, nextHeader);
    EspAcceptExact(w.keys.previousInbound.replay, w.previousSeen, sender.sequence);
    SealThenOpen(c, sender, w.keys.previousInbound, payload, nextHeader, false);
  }

  // ---------------------------------------------------------------- 96 is reached

  /** What the peer of this configuration sends under number s. */
  function FromPeer(c: Crypto, config: Config, s: nat): seq<Byte>
    requires LawfulCrypto(c) && ValidConfig(config) && NewKeySet(config, ZERO_IV).Ok?
  {
    Datagram(c, Peer(config, s), [0x45], IPV4)
  }

  function Peer(config: Config, s: nat): (a: Association)
    requires ValidConfig(config) && NewKeySet(config, ZERO_IV).Ok?
    ensures WellFormed(a) && a.valid && a.sequence == s
  {
    NewAssociation(config.encryption, config.authentication, config.inbound, ZERO_IV).value.(sequence := s)
  }

  /** The association made from config has been superseded after accepting 64 alone, and
      since then it has accepted what is below s. */
  ghost predicate Draining(w: World, config: Config, s: nat)
    requires ValidConfig(config) && NewKeySet(config, ZERO_IV).Ok?
  {
    && Inv(w) && !w.keys.destroyed
    && w.keys.previousInbound.valid && Matches(Peer(config, 0), w.keys.previousInbound)
    && w.keys.currentInbound.spi != w.keys.previousInbound.spi
    && w.keys.currentInbound.replay.nextSequence == 0 && w.keys.previousLimit == 97
    && w.keys.previousInbound.replay.nextSequence == (if s <= 65 then 65 else s)
    && w.seenBefore == {64} && w.previousSeen == {64} + Below(s)
  }

  function Below(n: nat): (r: set<nat>)
    ensures |r| == n && forall x: nat :: x in r <==> x < n
  {
    if n == 0 then {} else Below(n - 1) + {n - 1}
  }

  lemma AcceptedNext(window: EspWindow, sequence: nat)
    requires EspAccept(window, sequence).accepted
    ensures EspAccept(window, sequence).window.nextSequence
         == if sequence < window.nextSequence then window.nextSequence else sequence + 1
  {
  }

  /** A datagram of the peer whose number the window admits is accepted. */
  lemma PeerAccepted(c: Crypto, w: World, config: Config, s: nat, which: Inbound)
    requires LawfulCrypto(c) && ValidConfig(config) && NewKeySet(config, ZERO_IV).Ok? && s <= MAX_SEQUENCE
    requires Inv(w) && !w.keys.destroyed
    requires InboundOf(w.keys, which).valid && Matches(Peer(config, 0), InboundOf(w.keys, which))
    requires SelectInbound(w.keys, config.inbound.spi, s) == Some(which)
    requires EspAccept(InboundOf(w.keys, which).replay, s).accepted
    ensures var d := FromPeer(c, config, s);
            |d| >= 8 && SequenceOf(d) == s && Target(w.keys, d) == Some(which) && Accepts(c, w.keys, d)
  {
    hide Datagram, LawfulCrypto, FromBigEndian, EspRepresents, EspAccept, Authentic, Plaintext, SelectInbound, NumbersOf;
    DatagramFields(c, Peer(config, s), [0x45], IPV4);
    SealedIsAuthentic(c, Peer(config, s), InboundOf(w.keys, which), [0x45], IPV4);
  }

  lemma PeerStep(c: Crypto, w: World, config: Config, s: nat, which: Inbound)
    requires LawfulCrypto(c) && ValidConfig(config) && NewKeySet(config, ZERO_IV).Ok? && s <= MAX_SEQUENCE
    requires Inv(w) && !w.keys.destroyed
    requires InboundOf(w.keys, which).valid && Matches(Peer(config, 0), InboundOf(w.keys, which))
    requires SelectInbound(w.keys, config.inbound.spi, s) == Some(which)
    requires EspAccept(InboundOf(w.keys, which).replay, s).accepted
    ensures var w' := Step(c, w, OpenOp(FromPeer(c, config, s)));
            && Inv(w') && w'.seenBefore == w.seenBefore
            && w'.keys == WithReplay(w.keys, which, EspAccept(InboundOf(w.keys, which).replay, s).window)
            && w'.currentSeen == (if which.Current? then w.currentSeen + {s} else w.currentSeen)
            && w'.previousSeen == (if which.Previous? then w.previousSeen + {s} else w.previousSeen)
  {
    hide LawfulCrypto, FromPeer, EspAccept, Accepts, OpenDatagram, Live, SelectInbound, NewKeySet, Peer;
    PeerAccepted(c, w, config, s, which);
    AcceptedMoves(c, w.keys, FromPeer(c, config, s));
    StepInv(c, w, OpenOp(FromPeer(c, config, s)));
  }

  lemma DrainOne(c: Crypto, w: World, config: Config, s: nat)
    requires LawfulCrypto(c) && ValidConfig(config) && NewKeySet(config, ZERO_IV).Ok?
    requires s < 97 && s != 64 && Draining(w, config, s)
    ensures Draining(Step(c, w, OpenOp(FromPeer(c, config, s))), config, s + 1)
  {
    hide LawfulCrypto, FromPeer, EspRepresents, EspAccept, Step, WellFormed, LingeringBound, Below, Superseded, SealedBelow;
    EspAcceptExact(w.keys.previousInbound.replay, w.previousSeen, s);
    PeerStep(c, w, config, s, Previous);
    AcceptedNext(w.keys.previousInbound.replay, s);
    assert ({64} + Below(s)) + {s} == {64} + Below(s + 1);
  }

  lemma RunFirst(c: Crypto, w: World, op: Op, rest: seq<Op>)
    requires LawfulCrypto(c) && Inv(w) && ValidOp(op) && (forall op :: op in rest ==> ValidOp(op))
    ensures Inv(Step(c, w, op)) && Run(c, w, [op] + rest) == Run(c, Step(c, w, op), rest)
  {
    hide Step, LawfulCrypto, Live, NumbersOf, ValidOp;
    StepInv(c, w, op);
    assert ([op] + rest)[0] == op && ([op] + rest)[1..] == rest;
  }

  lemma {:induction false} Drain(c: Crypto, w: World, config: Config, s: nat) returns (ops: seq<Op>)
    requires LawfulCrypto(c) && ValidConfig(config) && NewKeySet(config, ZERO_IV).Ok?
    requires s <= 97 && Draining(w, config, s)
    ensures (forall op :: op in ops ==> ValidOp(op)) && Draining(Run(c, w, ops), config, 97)
    decreases 97 - s
  {
    hide LawfulCrypto, FromPeer, Step, Live, NumbersOf, Run, Below, Peer, NewKeySet;
    if s == 97 {
      ops := [];
      RunNothing(c, w);
    } else if s == 64 {
      assert {64} + Below(64) == {64} + Below(65);
      ops := Drain(c, w, config, 65);
    } else {
      DrainOne(c, w, config, s);
      var op := OpenOp(FromPeer(c, config, s));
      var rest := Drain(c, Step(c, w, op), config, s + 1);
      RunFirst(c, w, op, rest);
      ops := [op] + rest;
    }
  }

  lemma RunNothing(c: Crypto, w: World)
    requires LawfulCrypto(c) && Inv(w)
    ensures Run(c, w, []) == w
  {
  }

  /** The bound of 96 is exact: whatever the keys, a peer that sends 64 first, and after
      the change every other number from 0 to 96, has all 96 of them accepted. */
  lemma NinetySixReached(c: Crypto, config: Config, next: Config) returns (ops: seq<Op>)
    requires LawfulCrypto(c) && ValidConfig(config) && NewKeySet(config, ZERO_IV).Ok? && !config.disableReplayProtection
    requires ValidConfig(next) && NewKeySet(next, ZERO_IV).Ok? && !next.disableReplayProtection
    requires next.inbound.spi != config.inbound.spi
    ensures forall op :: op in ops ==> ValidOp(op)
    ensures var start := Start(NewKeySet(config, ZERO_IV).value);
            Inv(start) && |Lingering(Run(c, start, ops))| == 96
  {
    hide LawfulCrypto, FromPeer, Step, NumbersOf, Live, Below, Run, Peer, NewKeySet;
    StartInv(config, ZERO_IV);
    var start := Start(NewKeySet(config, ZERO_IV).value);
    var first, second := OpenOp(FromPeer(c, config, 64)), InstallOp(next, ZERO_IV);
    DrainStarts(c, config, next);
    var rest := Drain(c, Step(c, Step(c, start, first), second), config, 0);
    ops := [first] + ([second] + rest);
    RunFirst(c, start, first, [second] + rest);
    RunFirst(c, Step(c, start, first), second, rest);
    var end := Run(c, start, ops);
    assert Lingering(end) == Below(97) - {64};
  }

  lemma DrainStarts(c: Crypto, config: Config, next: Config)
    requires LawfulCrypto(c) && ValidConfig(config) && NewKeySet(config, ZERO_IV).Ok? && !config.disableReplayProtection
    requires ValidConfig(next) && NewKeySet(next, ZERO_IV).Ok? && !next.disableReplayProtection
    requires next.inbound.spi != config.inbound.spi
    ensures var w := Step(c, Start(NewKeySet(config, ZERO_IV).value), OpenOp(FromPeer(c, config, 64)));
            Inv(w) && Draining(Step(c, w, InstallOp(next, ZERO_IV)), config, 0)
  {
    hide LawfulCrypto, FromPeer, EspRepresents, EspAccept, Authentic, OpenDatagram, NumbersOf;
    StartInv(config, ZERO_IV);
    var start, d := Start(NewKeySet(config, ZERO_IV).value), FromPeer(c, config, 64);
    EspAcceptExact(start.keys.currentInbound.replay, {}, 64);
    PeerStep(c, start, config, 64, Current);
    AcceptedNext(start.keys.currentInbound.replay, 64);
    StepInv(c, Step(c, start, OpenOp(d)), InstallOp(next, ZERO_IV));
    assert {64} + Below(0) == {64};
  }
}
