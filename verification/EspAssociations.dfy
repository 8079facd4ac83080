/** ESP security associations of esp_packet.go: building, sealing and opening one
    datagram, over an abstract AES and HMAC. */
module EspAssociations {
  import opened Bytes
  import opened Cbc
  import opened ReplayWindows

  datatype Encryption = Aes128Cbc | Aes256Cbc | UnknownEncryption
  datatype Authentication = HmacMd5 | HmacSha1 | HmacSha256 | UnknownAuthentication

  const BLOCK := 16
  const HEADER := 24
  const IPV4: Byte := 4
  const LZO: Byte := 5
  const IPV6: Byte := 41
  const MAX_SEQUENCE := 0xffff_ffff

  datatype EspError =
    | BadAlgorithm | ZeroSpi | BadKeyLength
    | KeysDestroyed | InvalidDatagram | AuthenticationFailed | Replayed | SequenceExhausted

  function EncryptionKeyLength(e: Encryption): nat {
    match e
    case Aes128Cbc => 16
    case Aes256Cbc => 32
    case UnknownEncryption => 0
  }

  /** The key is as long as the digest for every algorithm here. */
  function AuthenticationKeyLength(a: Authentication): nat {
    match a
    case HmacMd5 => 16
    case HmacSha1 => 20
    case HmacSha256 => 32
    case UnknownAuthentication => 0
  }

  function IcvLength(a: Authentication): nat {
    match a
    case HmacMd5 => 12
    case HmacSha1 => 12
    case HmacSha256 => 16
    case UnknownAuthentication => 0
  }

  /** The two primitives, left abstract. */
  datatype Crypto = Crypto(
    aes: seq<Byte> -> Cipher,
    hmac: (Authentication, seq<Byte>, seq<Byte>) -> seq<Byte>)

  ghost predicate LawfulCrypto(c: Crypto) {
    && (forall key: seq<Byte> :: |key| == 16 || |key| == 32 ==> Lawful(c.aes(key)) && c.aes(key).blockLength == BLOCK)
    && (forall a: Authentication, key: seq<Byte>, message: seq<Byte> ::
          |c.hmac(a, key, message)| == AuthenticationKeyLength(a))
  }

  datatype KeyMaterial = KeyMaterial(spi: nat, encryptionKey: seq<Byte>, authenticationKey: seq<Byte>)

  datatype Association = Association(
    encryption: Encryption,
    authentication: Authentication,
    spi: nat,
    encryptionKey: seq<Byte>,
    authenticationKey: seq<Byte>,
    sequence: nat,
    replay: EspWindow,
    iv: seq<Byte>,
    valid: bool)

  /** The zero value a destroyed association is reset to. */
  const ZERO_IV: seq<Byte> := [0, 0, 0, 0, 0, 0, 0, 0, 0, 0, 0, 0, 0, 0, 0, 0]
  const CLEARED := Association(UnknownEncryption, UnknownAuthentication, 0, [], [], 0, ESP_FRESH, ZERO_IV, false)

  ghost predicate WellFormed(a: Association) {
    && |a.iv| == BLOCK
    && (a.valid ==>
          && a.encryption != UnknownEncryption && a.authentication != UnknownAuthentication
          && |a.encryptionKey| == EncryptionKeyLength(a.encryption)
          && |a.authenticationKey| == AuthenticationKeyLength(a.authentication)
          && 0 < a.spi < Radix(4))
  }

  /** newESPSecurityAssociation; iv is the random block of an outbound association. */
  function NewAssociation(e: Encryption, a: Authentication, m: KeyMaterial, iv: seq<Byte>)
    : (r: Result<Association, EspError>)
    requires |iv| == BLOCK && m.spi < Radix(4)
    ensures r.Ok? ==> WellFormed(r.value) && r.value.valid && r.value.sequence == 0 && r.value.replay == ESP_FRESH
    ensures r.Ok? ==> r.value.encryption == e && r.value.authentication == a && r.value.spi == m.spi && r.value.iv == iv
    ensures r.Ok? ==> r.value.encryptionKey == m.encryptionKey && r.value.authenticationKey == m.authenticationKey
    ensures r == Err(BadAlgorithm) <==> e == UnknownEncryption || a == UnknownAuthentication
    ensures r == Err(ZeroSpi) <==> e != UnknownEncryption && a != UnknownAuthentication && m.spi == 0
    ensures r.Err? ==> r.error == BadAlgorithm || r.error == ZeroSpi || r.error == BadKeyLength
    ensures r.Ok? <==> e != UnknownEncryption && a != UnknownAuthentication && m.spi != 0 &&
                       |m.encryptionKey| == EncryptionKeyLength(e) && |m.authenticationKey| == AuthenticationKeyLength(a)
  {
    if EncryptionKeyLength(e) == 0 || AuthenticationKeyLength(a) == 0 then Err(BadAlgorithm)
    else if m.spi == 0 then Err(ZeroSpi)
    else if |m.encryptionKey| != EncryptionKeyLength(e) || |m.authenticationKey| != AuthenticationKeyLength(a) then
      Err(BadKeyLength)
    else
      Ok(Association(e, a, m.spi, m.encryptionKey, m.authenticationKey, 0, ESP_FRESH, iv, true))
  }

  // ---------------------------------------------------------------- sealing

  predicate KnownHeader(nextHeader: Byte) {
    nextHeader == IPV4 || nextHeader == IPV6 || nextHeader == LZO
  }

  /** The next header sealBuffer puts in: the one asked for, or the inner IP version. */
  function ChooseHeader(payload: seq<Byte>, nextHeader: Byte): Result<Byte, EspError> {
    if nextHeader == 0 then
      if payload == [] then Err(InvalidDatagram)
      else if payload[0] / 16 == 4 then Ok(IPV4)
      else if payload[0] / 16 == 6 then Ok(IPV6)
      else Err(InvalidDatagram)
    else if KnownHeader(nextHeader) then Ok(nextHeader)
    else Err(InvalidDatagram)
  }

  function PaddingLength(payloadLength: nat): (r: nat)
    ensures r < BLOCK && (payloadLength + r + 2) % BLOCK == 0
  {
    BLOCK - 1 - (payloadLength + 1) % BLOCK
  }

  /** 1, 2, 3, ... */
  function Padding(n: nat): (r: seq<Byte>)
    requires n < 256
    ensures |r| == n && forall i :: 0 <= i < n ==> r[i] == i + 1
  {
    seq(n, i requires 0 <= i < n => i + 1)
  }

  function Plaintext(payload: seq<Byte>, nextHeader: Byte): (r: seq<Byte>)
    ensures |r| % BLOCK == 0 && |r| >= BLOCK
  {
    var n := PaddingLength(|payload|);
    payload + Padding(n) + [n, nextHeader]
  }

  /** Header, initial vector and ciphertext: everything the integrity check covers. */
  function Covered(c: Crypto, a: Association, payload: seq<Byte>, nextHeader: Byte): (r: seq<Byte>)
    requires LawfulCrypto(c) && WellFormed(a) && a.valid
    ensures |r| == HEADER + |Plaintext(payload, nextHeader)|
  {
    BigEndian(a.spi, 4) + BigEndian(a.sequence, 4) + a.iv
      + Encrypt(c.aes(a.encryptionKey), a.iv, Plaintext(payload, nextHeader))
  }

  /** The datagram sealBuffer leaves in the buffer. */
  function Datagram(c: Crypto, a: Association, payload: seq<Byte>, nextHeader: Byte): (r: seq<Byte>)
    requires LawfulCrypto(c) && WellFormed(a) && a.valid
    ensures |r| == HEADER + |Plaintext(payload, nextHeader)| + IcvLength(a.authentication)
  {
    var covered := Covered(c, a, payload, nextHeader);
    covered + c.hmac(a.authentication, a.authenticationKey, covered)[..IcvLength(a.authentication)]
  }

  /** The next explicit IV: the last block of the full digest run through the live
      chaining state. */
  function NextIv(c: Crypto, a: Association, covered: seq<Byte>): (r: seq<Byte>)
    requires LawfulCrypto(c) && WellFormed(a) && a.valid && |covered| >= BLOCK
    ensures |r| == BLOCK
  {
    var digest := c.hmac(a.authentication, a.authenticationKey, covered);
    c.aes(a.encryptionKey).encrypt(XorBytes(digest[|digest| - BLOCK..], covered[|covered| - BLOCK..]))
  }

  function AfterSeal(c: Crypto, a: Association, payload: seq<Byte>, nextHeader: Byte): (r: Association)
    requires LawfulCrypto(c) && WellFormed(a) && a.valid
    ensures WellFormed(r)
  {
    a.(sequence := a.sequence + 1, iv := NextIv(c, a, Covered(c, a, payload, nextHeader)))
  }

  /** sealBuffer on the outbound association: the datagram and the next state, or why
      nothing was sent. */
  function Seal(c: Crypto, a: Association, payload: seq<Byte>, nextHeader: Byte): (r: Result<seq<Byte>, EspError>)
    requires LawfulCrypto(c) && WellFormed(a)
    ensures r.Ok? ==> |r.value| > HEADER
  {
    if !a.valid then Err(KeysDestroyed)
    else
      match ChooseHeader(payload, nextHeader)
      case Err(e) => Err(e)
      case Ok(header) =>
        if a.sequence > MAX_SEQUENCE then Err(SequenceExhausted) else Ok(Datagram(c, a, payload, header))
  }

  // ---------------------------------------------------------------- opening

  datatype Opened = Opened(nextHeader: Byte, payload: seq<Byte>)

  /** Removes padding, pad length and next header. */
  function Strip(plaintext: seq<Byte>): Result<Opened, EspError>
    requires |plaintext| >= 2
  {
    var n: nat := plaintext[|plaintext| - 2];
    if |plaintext| <= n + 2 then Err(InvalidDatagram)
    else
      var payloadLength := |plaintext| - n - 2;
      if plaintext[payloadLength..payloadLength + n] != Padding(n) then Err(InvalidDatagram)
      else if !KnownHeader(plaintext[|plaintext| - 1]) then Err(InvalidDatagram)
      else Ok(Opened(plaintext[|plaintext| - 1], plaintext[..payloadLength]))
  }

  function Authentic(c: Crypto, a: Association, datagram: seq<Byte>): bool
    requires LawfulCrypto(c) && WellFormed(a) && a.valid
  {
    var icv := IcvLength(a.authentication);
    && |datagram| >= HEADER + BLOCK + icv
    && (|datagram| - HEADER - icv) % BLOCK == 0
    && c.hmac(a.authentication, a.authenticationKey, datagram[..|datagram| - icv])[..icv] == datagram[|datagram| - icv..]
  }

  function Decrypted(c: Crypto, a: Association, datagram: seq<Byte>): (r: seq<Byte>)
    requires LawfulCrypto(c) && WellFormed(a) && a.valid && Authentic(c, a, datagram)
    ensures |r| >= BLOCK
  {
    var end := |datagram| - IcvLength(a.authentication);
    Decrypt(c.aes(a.encryptionKey), datagram[8..HEADER], datagram[HEADER..end])
  }

  datatype OpenStep = OpenStep(association: Association, result: Result<Opened, EspError>)

  /** openBuffer once an association has been chosen. The window moves as soon as the
      integrity check passed, whatever the padding turns out to be. */
  function Open(c: Crypto, a: Association, datagram: seq<Byte>, sequence: nat, replayAllowed: bool): (r: OpenStep)
    requires LawfulCrypto(c) && WellFormed(a) && a.valid
    ensures WellFormed(r.association)
    ensures r.association == a.(replay := r.association.replay)
  {
    var icv := IcvLength(a.authentication);
    if |datagram| < HEADER + BLOCK + icv || (|datagram| - HEADER - icv) % BLOCK != 0 then
      OpenStep(a, Err(InvalidDatagram))
    else if !Authentic(c, a, datagram) then OpenStep(a, Err(AuthenticationFailed))
    else
      var step := EspAccept(a.replay, sequence);
      var next := a.(replay := step.window);
      if !step.accepted && !replayAllowed then OpenStep(next, Err(Replayed))
      else OpenStep(next, Strip(Decrypted(c, a, datagram)))
  }

  /** The trailer sealBuffer appends, byte by byte. */
  method AppendTrailer(payload: seq<Byte>, nextHeader: Byte) returns (text: seq<Byte>)
    ensures text == Plaintext(payload, nextHeader)
  {
    var n := PaddingLength(|payload|);
    text := payload;
    for i := 0 to n
      invariant text == payload + Padding(n)[..i]
    {
      assert Padding(n)[..i + 1] == Padding(n)[..i] + [i + 1];
      text := text + [i + 1];
    }
    assert Padding(n)[..n] == Padding(n);
    text := text + [n, nextHeader];
  }

  /** The checks openBuffer makes on the decrypted text, byte by byte. */
  method StripTrailer(plaintext: seq<Byte>) returns (r: Result<Opened, EspError>)
    requires |plaintext| >= 2
    ensures r == Strip(plaintext)
  {
    var n: nat := plaintext[|plaintext| - 2];
    if |plaintext| <= n + 2 {
      return Err(InvalidDatagram);
    }
    var payloadLength := |plaintext| - n - 2;
    for i := 0 to n
      invariant plaintext[payloadLength..payloadLength + i] == Padding(n)[..i]
    {
      if plaintext[payloadLength + i] != i + 1 {
        assert plaintext[payloadLength..payloadLength + n][i] != Padding(n)[i];
        return Err(InvalidDatagram);
      }
      assert plaintext[payloadLength..payloadLength + i + 1] == plaintext[payloadLength..payloadLength + i] + [i + 1];
      assert Padding(n)[..i + 1] == Padding(n)[..i] + [i + 1];
    }
    assert Padding(n)[..n] == Padding(n);
    if !KnownHeader(plaintext[|plaintext| - 1]) {
      return Err(InvalidDatagram);
    }
    return Ok(Opened(plaintext[|plaintext| - 1], plaintext[..payloadLength]));
  }

  // ---------------------------------------------------------------- round trip

  lemma StripUndoesPlaintext(payload: seq<Byte>, nextHeader: Byte)
    requires KnownHeader(nextHeader)
    ensures Strip(Plaintext(payload, nextHeader))
         == if payload == [] then Err(InvalidDatagram) else Ok(Opened(nextHeader, payload))
  {
    var n := PaddingLength(|payload|);
    var text := Plaintext(payload, nextHeader);
    assert text[|text| - 2] == n && text[|text| - 1] == nextHeader;
    assert text[|payload|..|payload| + n] == Padding(n);
    assert text[..|payload|] == payload;
  }

  /** Stripping accepts exactly a payload that is not empty, any number of bytes 1, 2, 3, ...,
      that number, and one of the three next headers. */
  lemma StripExact(text: seq<Byte>, nextHeader: Byte, payload: seq<Byte>)
    requires |text| >= 2
    ensures Strip(text) == Ok(Opened(nextHeader, payload)) <==>
              && payload != [] && (nextHeader == 4 || nextHeader == 5 || nextHeader == 41)
              && HasTrailer(text, payload, nextHeader)
    ensures Strip(text).Err? ==> Strip(text).error == InvalidDatagram
  {
    var n := text[|text| - 2];
    if Strip(text) == Ok(Opened(nextHeader, payload)) {
      assert text == payload + Padding(n) + [n, nextHeader];
      assert Trailed(text, payload, n, nextHeader);
    }
    if m: Byte :| Trailed(text, payload, m, nextHeader) {
      assert text[|text| - 2] == m && text[|text| - 1] == nextHeader;
      assert text[|payload|..|payload| + m] == Padding(m) && text[..|payload|] == payload;
    }
  }

  ghost predicate HasTrailer(text: seq<Byte>, payload: seq<Byte>, nextHeader: Byte) {
    exists n: Byte :: Trailed(text, payload, n, nextHeader)
  }

  ghost predicate Trailed(text: seq<Byte>, payload: seq<Byte>, n: Byte, nextHeader: Byte) {
    text == payload + Padding(n) + [n, nextHeader]
  }

  /** The next initial vector is what the running cipher would give for one block more: the
      last block of the full digest. */
  lemma NextIvContinues(c: Crypto, a: Association, payload: seq<Byte>, nextHeader: Byte)
    requires LawfulCrypto(c) && WellFormed(a) && a.valid
    ensures var text := Plaintext(payload, nextHeader);
            var digest := c.hmac(a.authentication, a.authenticationKey, Covered(c, a, payload, nextHeader));
            && |digest| >= 16 && WholeBlocks(c.aes(a.encryptionKey), text + digest[|digest| - 16..])
            && var longer := Encrypt(c.aes(a.encryptionKey), a.iv, text + digest[|digest| - 16..]);
               && |longer| == |text| + 16
               && AfterSeal(c, a, payload, nextHeader).iv == longer[|text|..]
  {
    hide Encrypt, Plaintext, BigEndian, XorBytes;
    var cipher, text := c.aes(a.encryptionKey), Plaintext(payload, nextHeader);
    var covered := Covered(c, a, payload, nextHeader);
    var digest := c.hmac(a.authentication, a.authenticationKey, covered);
    CoveredEnds(c, a, payload, nextHeader);
    EncryptContinues(cipher, a.iv, text, digest[|digest| - BLOCK..]);
  }

  lemma CoveredEnds(c: Crypto, a: Association, payload: seq<Byte>, nextHeader: Byte)
    requires LawfulCrypto(c) && WellFormed(a) && a.valid
    ensures var covered := Covered(c, a, payload, nextHeader);
            covered[|covered| - BLOCK..]
              == ChainedTo(c.aes(a.encryptionKey), a.iv,
                           Encrypt(c.aes(a.encryptionKey), a.iv, Plaintext(payload, nextHeader)))
  {
    hide Encrypt, Plaintext, BigEndian;
  }

  lemma FourParts(spi: seq<Byte>, sequence: seq<Byte>, iv: seq<Byte>, text: seq<Byte>, icv: seq<Byte>)
    requires |spi| == 4 && |sequence| == 4 && |iv| == BLOCK
    ensures var covered := spi + sequence + iv + text; var d := covered + icv;
            && d[..4] == spi && d[4..8] == sequence && d[8..HEADER] == iv
            && d[HEADER..|d| - |icv|] == text && d[..|d| - |icv|] == covered && d[|d| - |icv|..] == icv
  {
  }

  /** A peer that holds the same keys can read the header fields and the text back. */
  lemma DatagramFields(c: Crypto, a: Association, payload: seq<Byte>, nextHeader: Byte)
    requires LawfulCrypto(c) && WellFormed(a) && a.valid && a.sequence <= MAX_SEQUENCE
    ensures var d := Datagram(c, a, payload, nextHeader);
            && FromBigEndian(d[..4]) == a.spi
            && FromBigEndian(d[4..8]) == a.sequence
            && d[8..HEADER] == a.iv
            && d[HEADER..|d| - IcvLength(a.authentication)]
                 == Encrypt(c.aes(a.encryptionKey), a.iv, Plaintext(payload, nextHeader))
            && d[..|d| - IcvLength(a.authentication)] == Covered(c, a, payload, nextHeader)
            && d[|d| - IcvLength(a.authentication)..]
                 == c.hmac(a.authentication, a.authenticationKey, Covered(c, a, payload, nextHeader))[..IcvLength(a.authentication)]
  {
    hide Encrypt, Plaintext, BigEndian, FromBigEndian;
    BigEndianRoundTrip(a.spi, 4);
    assert Radix(4) == 0x1_0000_0000;
    BigEndianRoundTrip(a.sequence, 4);
    var covered := Covered(c, a, payload, nextHeader);
    FourParts(BigEndian(a.spi, 4), BigEndian(a.sequence, 4), a.iv,
              Encrypt(c.aes(a.encryptionKey), a.iv, Plaintext(payload, nextHeader)),
              c.hmac(a.authentication, a.authenticationKey, covered)[..IcvLength(a.authentication)]);
  }

  /** Two ends of one association: same algorithms, keys and SPI. */
  ghost predicate Matches(sender: Association, receiver: Association) {
    && sender.encryption == receiver.encryption && sender.authentication == receiver.authentication
    && sender.spi == receiver.spi
    && sender.encryptionKey == receiver.encryptionKey && sender.authenticationKey == receiver.authenticationKey
  }

  lemma SealedIsAuthentic(c: Crypto, sender: Association, receiver: Association, payload: seq<Byte>, nextHeader: Byte)
    requires LawfulCrypto(c) && WellFormed(sender) && WellFormed(receiver)
    requires sender.valid && receiver.valid && Matches(sender, receiver) && sender.sequence <= MAX_SEQUENCE
    ensures var d := Datagram(c, sender, payload, nextHeader);
            Authentic(c, receiver, d) && Decrypted(c, receiver, d) == Plaintext(payload, nextHeader)
  {
    hide Encrypt, Decrypt, Plaintext, BigEndian, FromBigEndian, Covered, Datagram;
    DatagramFields(c, sender, payload, nextHeader);
    DecryptUndoesEncrypt(c.aes(sender.encryptionKey), sender.iv, Plaintext(payload, nextHeader));
  }

  /** Opening what a matching peer sealed: a fresh sequence gives the payload and next
      header back, an empty payload is refused, and a stale sequence is a replay. */
  lemma SealThenOpen(c: Crypto, sender: Association, receiver: Association, payload: seq<Byte>, nextHeader: Byte,
                     replayAllowed: bool)
    requires LawfulCrypto(c) && WellFormed(sender) && WellFormed(receiver)
    requires sender.valid && receiver.valid && Matches(sender, receiver) && sender.sequence <= MAX_SEQUENCE
    requires KnownHeader(nextHeader)
    ensures Open(c, receiver, Datagram(c, sender, payload, nextHeader), sender.sequence, replayAllowed).result
         == if !EspAccept(receiver.replay, sender.sequence).accepted && !replayAllowed then Err(Replayed)
            else if payload == [] then Err(InvalidDatagram)
            else Ok(Opened(nextHeader, payload))
  {
    SealedIsAuthentic(c, sender, receiver, payload, nextHeader);
    StripUndoesPlaintext(payload, nextHeader);
  }
}
