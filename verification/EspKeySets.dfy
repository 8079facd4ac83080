/** espKeySet: one outbound and two inbound associations, rekeyed and destroyed while
    datagrams are sealed and opened. */
module EspKeySets {
  import opened Bytes
  import opened Cbc
  import opened ReplayWindows
  import opened EspAssociations

  datatype Config = Config(
    encryption: Encryption,
    authentication: Authentication,
    outbound: KeyMaterial,
    inbound: KeyMaterial,
    disableReplayProtection: bool)

  datatype KeySet = KeySet(
    outbound: Association,
    currentInbound: Association,
    previousInbound: Association,
    previousLimit: nat,
    disableReplayProtection: bool,
    destroyed: bool)

  /** Superseding keeps 32 numbers past the old association's next one alive. */
  const OVERLAP: nat := 32

  ghost predicate ValidConfig(config: Config) {
    config.outbound.spi < Radix(4) && config.inbound.spi < Radix(4)
  }

  ghost predicate ValidKeys(k: KeySet) {
    WellFormed(k.outbound) && WellFormed(k.currentInbound) && WellFormed(k.previousInbound)
  }

  /** newESPKeySet. */
  function NewKeySet(config: Config, iv: seq<Byte>): (r: Result<KeySet, EspError>)
    requires ValidConfig(config) && |iv| == BLOCK
    ensures r.Ok? ==> ValidKeys(r.value)
  {
    match NewAssociation(config.encryption, config.authentication, config.outbound, iv)
    case Err(e) => Err(e)
    case Ok(outbound) =>
      match NewAssociation(config.encryption, config.authentication, config.inbound, ZERO_IV)
      case Err(e) => Err(e)
      case Ok(inbound) => Ok(KeySet(outbound, inbound, CLEARED, 0, config.disableReplayProtection, false))
  }

  /** install: the new pair takes over, the old inbound association stays behind. */
  function Install(k: KeySet, config: Config, iv: seq<Byte>): (r: Result<KeySet, EspError>)
    requires ValidKeys(k) && ValidConfig(config) && |iv| == BLOCK
    ensures r.Ok? ==> ValidKeys(r.value)
  {
    match NewKeySet(config, iv)
    case Err(e) => Err(e)
    case Ok(keys) =>
      if k.destroyed then Err(KeysDestroyed)
      else
        Ok(keys.(previousInbound := k.currentInbound,
                 previousLimit := k.currentInbound.replay.nextSequence + OVERLAP))
  }

  function Destroy(k: KeySet): KeySet {
    if k.destroyed then k else KeySet(CLEARED, CLEARED, CLEARED, 0, k.disableReplayProtection, true)
  }

  datatype Inbound = Current | Previous

  function InboundOf(k: KeySet, which: Inbound): Association {
    if which.Current? then k.currentInbound else k.previousInbound
  }

  /** Which association openBuffer uses: the old one only while its number, together
      with the progress of the new one, stays under the limit. */
  function SelectInbound(k: KeySet, spi: nat, sequence: nat): Option<Inbound> {
    if spi == k.currentInbound.spi then Some(Current)
    else if !k.previousInbound.valid || spi != k.previousInbound.spi ||
            sequence + k.currentInbound.replay.nextSequence >= k.previousLimit then None
    else Some(Previous)
  }

  datatype OpenOutcome = OpenOutcome(keys: KeySet, result: Result<Opened, EspError>)

  /** openBuffer. */
  function OpenDatagram(c: Crypto, k: KeySet, datagram: seq<Byte>): (r: OpenOutcome)
    requires LawfulCrypto(c) && ValidKeys(k)
    ensures ValidKeys(r.keys)
  {
    if k.destroyed || !k.currentInbound.valid then OpenOutcome(k, Err(KeysDestroyed))
    else if |datagram| < 8 then OpenOutcome(k, Err(InvalidDatagram))
    else
      var sequence := FromBigEndian(datagram[4..8]);
      match SelectInbound(k, FromBigEndian(datagram[..4]), sequence)
      case None => OpenOutcome(k, Err(InvalidDatagram))
      case Some(which) =>
        var step := Open(c, InboundOf(k, which), datagram, sequence, k.disableReplayProtection);
        OpenOutcome(
          if which.Current? then k.(currentInbound := step.association)
          else k.(previousInbound := step.association),
          step.result)
  }

  datatype SealOutcome = SealOutcome(keys: KeySet, result: Result<seq<Byte>, EspError>)

  /** sealBuffer. */
  function SealPayload(c: Crypto, k: KeySet, payload: seq<Byte>, nextHeader: Byte): (r: SealOutcome)
    requires LawfulCrypto(c) && ValidKeys(k)
    ensures ValidKeys(r.keys)
    ensures r.result.Ok? ==> |r.result.value| > HEADER
  {
    if k.destroyed then SealOutcome(k, Err(KeysDestroyed))
    else
      var result := Seal(c, k.outbound, payload, nextHeader);
      if result.Err? then SealOutcome(k, result)
      else
        SealOutcome(k.(outbound := AfterSeal(c, k.outbound, payload, ChooseHeader(payload, nextHeader).value)), result)
  }

  /** The whole way: what one key set seals, a peer key set whose current inbound
      association matches opens to the same payload and next header, unless its window
      refuses the number or there is no payload. */
  lemma KeySetRoundTrip(c: Crypto, sender: KeySet, receiver: KeySet, payload: seq<Byte>, nextHeader: Byte)
    requires LawfulCrypto(c) && ValidKeys(sender) && ValidKeys(receiver)
    requires !receiver.destroyed && receiver.currentInbound.valid && Matches(sender.outbound, receiver.currentInbound)
    requires SealPayload(c, sender, payload, nextHeader).result.Ok?
    ensures var accepted := EspAccept(receiver.currentInbound.replay, sender.outbound.sequence).accepted;
            OpenDatagram(c, receiver, SealPayload(c, sender, payload, nextHeader).result.value).result
              == if !accepted && !receiver.disableReplayProtection then Err(Replayed)
                 else if payload == [] then Err(InvalidDatagram)
                 else Ok(Opened(if nextHeader != 0 then nextHeader else if payload[0] / 16 == 4 then IPV4 else IPV6, payload))
  {
    hide Datagram, Open, EspAccept, FromBigEndian, Plaintext, AfterSeal, LawfulCrypto;
    var header := ChooseHeader(payload, nextHeader).value;
    DatagramFields(c, sender.outbound, payload, header);
    SealThenOpen(c, sender.outbound, receiver.currentInbound, payload, header, receiver.disableReplayProtection);
  }

  // ---------------------------------------------------------------- what is let through

  /** sealBuffer seals exactly the packets of IP version 4 or 6, and whatever is sent under
      one of the three next headers; anything else is an invalid datagram. */
  lemma SealsExactly(c: Crypto, k: KeySet, payload: seq<Byte>, nextHeader: Byte)
    requires LawfulCrypto(c) && ValidKeys(k) && !k.destroyed && k.outbound.valid && k.outbound.sequence <= 0xffff_ffff
    ensures var result := SealPayload(c, k, payload, nextHeader).result;
            && (result.Ok? <==> Sealable(payload, nextHeader))
            && (result.Err? ==> result.error == InvalidDatagram && SealPayload(c, k, payload, nextHeader).keys == k)
  {
    hide Datagram, AfterSeal, LawfulCrypto, WellFormed;
  }

  predicate Sealable(payload: seq<Byte>, nextHeader: Byte) {
    if nextHeader == 0 then payload != [] && (payload[0] / 16 == 4 || payload[0] / 16 == 6)
    else nextHeader == 4 || nextHeader == 5 || nextHeader == 41
  }

  /** The datagram bears the SPI of a, and its last bytes are the front of the HMAC, under
      a's key, of everything before them. */
  ghost predicate Genuine(c: Crypto, a: Association, datagram: seq<Byte>) {
    var icv := if a.authentication == HmacSha256 then 16 else 12;
    && |datagram| >= 40 + icv && FromBigEndian(datagram[..4]) == a.spi
    && |c.hmac(a.authentication, a.authenticationKey, datagram[..|datagram| - icv])| >= icv
    && c.hmac(a.authentication, a.authenticationKey, datagram[..|datagram| - icv])[..icv] == datagram[|datagram| - icv..]
  }

  /** Whole blocks of ciphertext stand between the 24 bytes of header and the integrity value. */
  predicate WellShaped(a: Association, datagram: seq<Byte>) {
    var icv := if a.authentication == HmacSha256 then 16 else 12;
    |datagram| >= 40 + icv && (|datagram| - 24 - icv) % 16 == 0
  }

  /** Opening on an association, in full: which datagrams give which payload, and which error
      the others give. The window moves for every genuine datagram, whatever its trailer. */
  lemma OpenExactly(c: Crypto, a: Association, datagram: seq<Byte>, sequence: nat, replayAllowed: bool, o: Opened)
    requires LawfulCrypto(c) && WellFormed(a) && a.valid && |datagram| >= 8 && FromBigEndian(datagram[..4]) == a.spi
    ensures var step := Open(c, a, datagram, sequence, replayAllowed);
            var accept := EspAccept(a.replay, sequence);
            if !WellShaped(a, datagram) then step == OpenStep(a, Err(InvalidDatagram))
            else if !Genuine(c, a, datagram) then step == OpenStep(a, Err(AuthenticationFailed))
            else
              && step.association.replay == accept.window
              && if !accept.accepted && !replayAllowed then step.result == Err(Replayed)
                 else
                   && (step.result.Err? ==> step.result.error == InvalidDatagram)
                   && (step.result == Ok(o) <==> Carries(c, a, datagram, o))
  {
    hide EspAccept, Decrypt, FromBigEndian, Strip, HasTrailer;
    if WellShaped(a, datagram) && Genuine(c, a, datagram) {
      var text := Decrypted(c, a, datagram);
      StripExact(text, o.nextHeader, o.payload);
    }
  }

  /** The ciphertext decrypts, under the datagram's own vector, to the payload and a trailer. */
  ghost predicate Carries(c: Crypto, a: Association, datagram: seq<Byte>, o: Opened)
    requires LawfulCrypto(c) && WellFormed(a) && a.valid && WellShaped(a, datagram)
  {
    var icv := if a.authentication == HmacSha256 then 16 else 12;
    && o.payload != [] && (o.nextHeader == 4 || o.nextHeader == 5 || o.nextHeader == 41)
    && HasTrailer(Decrypt(c.aes(a.encryptionKey), datagram[8..24], datagram[24..|datagram| - icv]), o.payload, o.nextHeader)
  }

  /** A datagram that is opened, or that moves a window, is genuine for the current or the
      previous inbound association. */
  lemma OpenedIsGenuine(c: Crypto, k: KeySet, datagram: seq<Byte>)
    requires LawfulCrypto(c) && ValidKeys(k)
    requires OpenDatagram(c, k, datagram).result.Ok? || OpenDatagram(c, k, datagram).keys != k
    ensures (k.currentInbound.valid && Genuine(c, k.currentInbound, datagram)) ||
            (k.previousInbound.valid && Genuine(c, k.previousInbound, datagram))
  {
    hide Open, FromBigEndian, LawfulCrypto, WellFormed, Genuine;
    var which := SelectInbound(k, FromBigEndian(datagram[..4]), FromBigEndian(datagram[4..8])).value;
    OpenNeedsIcv(c, InboundOf(k, which), datagram, FromBigEndian(datagram[4..8]), k.disableReplayProtection);
  }

  lemma OpenNeedsIcv(c: Crypto, a: Association, datagram: seq<Byte>, sequence: nat, replayAllowed: bool)
    requires LawfulCrypto(c) && WellFormed(a) && a.valid && |datagram| >= 8 && FromBigEndian(datagram[..4]) == a.spi
    requires var step := Open(c, a, datagram, sequence, replayAllowed); step.result.Ok? || step.association != a
    ensures Genuine(c, a, datagram)
  {
    hide EspAccept, Strip, Decrypted, FromBigEndian;
  }

  /** A datagram of the right shape for the current association whose integrity value is not
      the HMAC fails authentication and changes nothing. */
  lemma ForgedIsRefused(c: Crypto, k: KeySet, datagram: seq<Byte>)
    requires LawfulCrypto(c) && ValidKeys(k) && !k.destroyed && k.currentInbound.valid
    requires |datagram| >= 40 + IcvLength(k.currentInbound.authentication)
    requires (|datagram| - 24 - IcvLength(k.currentInbound.authentication)) % 16 == 0
    requires FromBigEndian(datagram[..4]) == k.currentInbound.spi && !Genuine(c, k.currentInbound, datagram)
    ensures OpenDatagram(c, k, datagram) == OpenOutcome(k, Err(AuthenticationFailed))
  {
    hide EspAccept, Strip, Decrypted, FromBigEndian;
  }

  /** Two key sets whose configurations mirror each other understand each other from the
      first datagram on, newly made or installed over others. */
  lemma PeersTalk(c: Crypto, here: KeySet, there: KeySet, mine: Config, yours: Config, iv: seq<Byte>, iv': seq<Byte>,
                  payload: seq<Byte>, nextHeader: Byte)
    requires LawfulCrypto(c) && ValidKeys(here) && ValidKeys(there) && |iv| == |iv'| == BLOCK
    requires ValidConfig(mine) && ValidConfig(yours)
    requires yours.encryption == mine.encryption && yours.authentication == mine.authentication
    requires yours.inbound == mine.outbound
    requires Install(here, mine, iv).Ok? && Install(there, yours, iv').Ok?
    requires Sealable(payload, nextHeader) && payload != []
    ensures var sent := SealPayload(c, Install(here, mine, iv).value, payload, nextHeader).result;
            && sent.Ok?
            && OpenDatagram(c, Install(there, yours, iv').value, sent.value).result
                 == Ok(Opened(if nextHeader != 0 then nextHeader else if payload[0] / 16 == 4 then 4 else 41, payload))
  {
    hide OpenDatagram, SealPayload, LawfulCrypto, EspAccept;
    var k, l := Install(here, mine, iv).value, Install(there, yours, iv').value;
    SealsExactly(c, k, payload, nextHeader);
    KeySetRoundTrip(c, k, l, payload, nextHeader);
    FreshAccepts();
  }

  lemma FreshAccepts()
    ensures EspAccept(ESP_FRESH, 0).accepted
  {
  }

  /** Installing supersedes: the inbound association in use, with its window, becomes the
      previous one, up to 32 past its next number; the new pair is made from the
      configuration; and nothing else stays. */
  lemma InstallSupersedes(k: KeySet, config: Config, iv: seq<Byte>)
    requires ValidKeys(k) && ValidConfig(config) && |iv| == BLOCK
    ensures Install(k, config, iv).Ok? <==> !k.destroyed && NewKeySet(config, iv).Ok?
    ensures NewKeySet(config, iv).Ok? && k.destroyed ==> Install(k, config, iv) == Err(KeysDestroyed)
    ensures NewKeySet(config, iv).Err? ==> Install(k, config, iv) == Err(NewKeySet(config, iv).error)
    ensures NewKeySet(config, iv).Ok? ==> NewKeySet(config, iv).value.previousInbound.valid == false
    ensures Install(k, config, iv).Ok? ==>
              var l := Install(k, config, iv).value;
              && l.previousInbound == k.currentInbound && l.previousLimit == k.currentInbound.replay.nextSequence + 32
              && l.outbound.spi == config.outbound.spi && l.outbound.encryptionKey == config.outbound.encryptionKey
              && l.outbound.authenticationKey == config.outbound.authenticationKey && l.outbound.iv == iv
              && l.currentInbound.spi == config.inbound.spi && l.currentInbound.encryptionKey == config.inbound.encryptionKey
              && l.currentInbound.authenticationKey == config.inbound.authenticationKey
              && l.disableReplayProtection == config.disableReplayProtection && !l.destroyed
  {
  }

  /** Nothing of the keys is left. */
  lemma DestroyLeavesNothing(k: KeySet)
    requires !k.destroyed
    ensures var l := Destroy(k);
            && l.destroyed && !l.outbound.valid && !l.currentInbound.valid && !l.previousInbound.valid
            && l.outbound.encryptionKey == l.currentInbound.encryptionKey == l.previousInbound.encryptionKey == []
            && l.outbound.authenticationKey == l.currentInbound.authenticationKey == l.previousInbound.authenticationKey == []
  {
  }

  /** The key set as the code holds it: associations replaced in place. */
  class EspKeySet {
    const crypto: Crypto
    var outbound: Association
    var currentInbound: Association
    var previousInbound: Association
    var previousLimit: nat
    var disableReplayProtection: bool
    var destroyed: bool

    function Keys(): KeySet
      reads this
    {
      KeySet(outbound, currentInbound, previousInbound, previousLimit, disableReplayProtection, destroyed)
    }

    ghost predicate Valid()
      reads this
    {
      LawfulCrypto(crypto) && ValidKeys(Keys())
    }

    constructor (crypto: Crypto, keys: KeySet)
      requires LawfulCrypto(crypto) && ValidKeys(keys)
      ensures Valid() && Keys() == keys && this.crypto == crypto
    {
      this.crypto := crypto;
      outbound, currentInbound, previousInbound := keys.outbound, keys.currentInbound, keys.previousInbound;
      previousLimit := keys.previousLimit;
      disableReplayProtection, destroyed := keys.disableReplayProtection, keys.destroyed;
    }

    method InstallKeys(config: Config, iv: seq<Byte>) returns (r: Option<EspError>)
      requires Valid() && ValidConfig(config) && |iv| == BLOCK
      modifies this
      ensures Valid()
      ensures match Install(old(Keys()), config, iv)
              case Ok(keys) => r == None && Keys() == keys
              case Err(e) => r == Some(e) && Keys() == old(Keys())
    {
      var newOutbound := NewAssociation(config.encryption, config.authentication, config.outbound, iv);
      if newOutbound.Err? {
        return Some(newOutbound.error);
      }
      var newInbound := NewAssociation(config.encryption, config.authentication, config.inbound, ZERO_IV);
      if newInbound.Err? {
        return Some(newInbound.error);
      }
      if destroyed {
        return Some(KeysDestroyed);
      }
      previousInbound := currentInbound;
      previousLimit := currentInbound.replay.nextSequence + OVERLAP;
      outbound := newOutbound.value;
      currentInbound := newInbound.value;
      disableReplayProtection := config.disableReplayProtection;
      return None;
    }

    method SealBuffer(payload: seq<Byte>, nextHeader: Byte) returns (r: Result<seq<Byte>, EspError>)
      requires Valid()
      modifies this`outbound
      ensures Valid()
      ensures SealOutcome(Keys(), r) == SealPayload(crypto, old(Keys()), payload, nextHeader)
    {
      hide Datagram, AfterSeal, LawfulCrypto, Plaintext;
      if destroyed || !outbound.valid {
        return Err(KeysDestroyed);
      }
      var header := ChooseHeader(payload, nextHeader);
      if header.Err? {
        return Err(header.error);
      }
      if outbound.sequence > MAX_SEQUENCE {
        return Err(SequenceExhausted);
      }
      r := Ok(Datagram(crypto, outbound, payload, header.value));
      outbound := AfterSeal(crypto, outbound, payload, header.value);
    }

    method OpenBuffer(datagram: seq<Byte>) returns (r: Result<Opened, EspError>)
      requires Valid()
      modifies this`currentInbound, this`previousInbound
      ensures Valid()
      ensures OpenOutcome(Keys(), r) == OpenDatagram(crypto, old(Keys()), datagram)
    {
      if destroyed || !currentInbound.valid {
        return Err(KeysDestroyed);
      }
      if |datagram| < 8 {
        return Err(InvalidDatagram);
      }
      var spi, sequence := FromBigEndian(datagram[..4]), FromBigEndian(datagram[4..8]);
      var association := currentInbound;
      if spi != association.spi {
        if !previousInbound.valid || spi != previousInbound.spi ||
           sequence + currentInbound.replay.nextSequence >= previousLimit {
          return Err(InvalidDatagram);
        }
        association := previousInbound;
      }
      var step := Open(crypto, association, datagram, sequence, disableReplayProtection);
      if spi == currentInbound.spi {
        currentInbound := step.association;
      } else {
        previousInbound := step.association;
      }
      return step.result;
    }

    method DestroyKeys()
      requires Valid()
      modifies this
      ensures Valid() && Keys() == Destroy(old(Keys()))
    {
      if destroyed {
        return;
      }
      destroyed := true;
      outbound, currentInbound, previousInbound := CLEARED, CLEARED, CLEARED;
      previousLimit := 0;
    }
  }
}
