/** MAC-then-encrypt CBC records of dtls_legacy_record.go, with the padding check done
    without branches on the decrypted bytes. */
module DtlsCbcRecords {
  import opened Bytes
  import opened Bits
  import opened Cbc
  import opened DtlsRecords

  const MAC_LENGTH := 20

  datatype CbcError =
    | BadKey | WrongEpoch | BadLength | BadAuthentication | NotEncoded(error: RecordError)

  /** newBlock makes a block cipher from a key, or refuses the key; hmac is HMAC-SHA-1. */
  datatype Suite = Suite(
    version: Uint16,
    blockLength: nat,
    newBlock: seq<Byte> -> Option<Cipher>,
    hmac: (seq<Byte>, seq<Byte>) -> seq<Byte>)

  ghost predicate LawfulSuite(s: Suite) {
    && (s.blockLength == 8 || s.blockLength == 16)
    && (forall key: seq<Byte> :: s.newBlock(key).Some? ==>
          Lawful(s.newBlock(key).value) && s.newBlock(key).value.blockLength == s.blockLength)
    && (forall key: seq<Byte>, message: seq<Byte> :: |s.hmac(key, message)| == MAC_LENGTH)
  }

  /** legacyDTLSRecordMAC: epoch, sequence, type, version, length and payload. */
  function RecordMac(s: Suite, r: Record, macKey: seq<Byte>): (mac: seq<Byte>)
    requires LawfulSuite(s)
    ensures |mac| == MAC_LENGTH
  {
    s.hmac(macKey,
      BigEndian(r.epoch, 2) + BigEndian(r.sequence, 6) + [r.contentType] + BigEndian(s.version, 2)
        + BigEndian(|r.payload|, 2) + r.payload)
  }

  function PaddingLength(textLength: nat, blockLength: nat): (n: nat)
    requires blockLength == 8 || blockLength == 16
    ensures 1 <= n <= blockLength && (textLength + n) % blockLength == 0
  {
    blockLength - textLength % blockLength
  }

  function Repeat(value: Byte, n: nat): (r: seq<Byte>)
    ensures |r| == n && forall i :: 0 <= i < n ==> r[i] == value
  {
    seq(n, _ => value)
  }

  /** Payload, MAC and padding: n bytes of value n - 1. */
  function CbcPlaintext(s: Suite, r: Record, macKey: seq<Byte>): (text: seq<Byte>)
    requires LawfulSuite(s)
    ensures |text| % s.blockLength == 0
    ensures |text| == |r.payload| + MAC_LENGTH + PaddingLength(|r.payload| + MAC_LENGTH, s.blockLength)
  {
    var n := PaddingLength(|r.payload| + MAC_LENGTH, s.blockLength);
    r.payload + RecordMac(s, r, macKey) + Repeat(n - 1, n)
  }

  /** encryptLegacyDTLSRecord; iv is the random block it draws. */
  function EncryptRecord(s: Suite, r: Record, key: seq<Byte>, macKey: seq<Byte>, iv: seq<Byte>)
    : Result<seq<Byte>, CbcError>
    requires LawfulSuite(s) && |iv| == s.blockLength
  {
    match s.newBlock(key)
    case None => Err(BadKey)
    case Some(cipher) =>
      match Marshal(r.(payload := iv + Encrypt(cipher, iv, CbcPlaintext(s, r, macKey))), s.version)
      case Err(e) => Err(NotEncoded(e))
      case Ok(encoded) => Ok(encoded)
  }

  // ---------------------------------------------------------------- padding

  /** The rule itself: the last byte, plus one, counts the padding; it leaves room for
      the MAC and all of it has that value. */
  predicate PaddingRule(text: seq<Byte>)
    requires text != []
  {
    && PaddingCount(text) <= |text| - MAC_LENGTH
    && forall k :: |text| - PaddingCount(text) <= k < |text| ==> text[k] == text[|text| - 1]
  }

  function PaddingCount(text: seq<Byte>): nat
    requires text != []
  {
    var last: int := text[|text| - 1];
    last + 1
  }

  function LessOrEq(x: int, y: int): nat {
    if x <= y then 1 else 0
  }

  function ByteEq(x: Byte, y: Byte): nat {
    if x == y then 1 else 0
  }

  function Select(v: nat, x: int, y: int): int {
    if v == 1 then x else y
  }

  /** Every byte the padding could cover is looked at, and no step branches on one. */
  method CheckPadding(text: seq<Byte>) returns (valid: nat)
    requires text != []
    ensures valid == if PaddingRule(text) then 1 else 0
  {
    var last: int := text[|text| - 1];
    var paddingLength := last + 1;
    valid := LessOrEq(paddingLength, |text| - MAC_LENGTH);
    var checkLength := if |text| < 256 then |text| else 256;
    for i := 0 to checkLength
      invariant valid <= 1
      invariant valid == 1 <==>
        && paddingLength <= |text| - MAC_LENGTH
        && forall k :: |text| - i <= k < |text| && |text| - paddingLength <= k ==> text[k] == last
    {
      var insidePadding := LessOrEq(i + 1, paddingLength);
      var matching := ByteEq(text[|text| - 1 - i], last);
      valid := And(valid, Select(insidePadding, matching, 1));
    }
  }

  function MinimumCiphertext(blockLength: nat): nat
    requires blockLength > 0
  {
    ((MAC_LENGTH + blockLength) / blockLength) * blockLength
  }

  predicate CbcLength(s: Suite, payload: seq<Byte>)
    requires s.blockLength > 0
  {
    && |payload| >= s.blockLength + MinimumCiphertext(s.blockLength)
    && (|payload| - s.blockLength) % s.blockLength == 0
  }

  function RecordText(s: Suite, cipher: Cipher, r: Record): (text: seq<Byte>)
    requires LawfulSuite(s) && Lawful(cipher) && cipher.blockLength == s.blockLength && CbcLength(s, r.payload)
    ensures |text| > MAC_LENGTH
  {
    Decrypt(cipher, r.payload[..s.blockLength], r.payload[s.blockLength..])
  }

  /** What a decrypted text authenticates to: a bad padding counts as one byte, so that
      the MAC is computed all the same. */
  function Authenticated(s: Suite, r: Record, macKey: seq<Byte>, text: seq<Byte>): Result<seq<Byte>, CbcError>
    requires LawfulSuite(s) && |text| > MAC_LENGTH
  {
    var n := if PaddingRule(text) then PaddingCount(text) else 1;
    var payloadLength := |text| - n - MAC_LENGTH;
    var payload := text[..payloadLength];
    if PaddingRule(text) && text[payloadLength..payloadLength + MAC_LENGTH] == RecordMac(s, r.(payload := payload), macKey)
    then Ok(payload)
    else Err(BadAuthentication)
  }

  /** decryptLegacyDTLSRecord. */
  function DecryptRecord(s: Suite, r: Record, key: seq<Byte>, macKey: seq<Byte>): Result<seq<Byte>, CbcError>
    requires LawfulSuite(s)
  {
    if r.epoch != 1 then Err(WrongEpoch)
    else if !CbcLength(s, r.payload) then Err(BadLength)
    else
      match s.newBlock(key)
      case None => Err(BadKey)
      case Some(cipher) => Authenticated(s, r, macKey, RecordText(s, cipher, r))
  }

  /** The same with the branch-free check, as it runs. */
  method DecryptInPlace(s: Suite, r: Record, key: seq<Byte>, macKey: seq<Byte>) returns (out: Result<seq<Byte>, CbcError>)
    requires LawfulSuite(s)
    ensures out == DecryptRecord(s, r, key, macKey)
  {
    hide Decrypt, RecordMac, Lawful;
    if r.epoch != 1 {
      return Err(WrongEpoch);
    }
    var minimum := MinimumCiphertext(s.blockLength);
    if |r.payload| < s.blockLength + minimum || (|r.payload| - s.blockLength) % s.blockLength != 0 {
      return Err(BadLength);
    }
    var cipher := s.newBlock(key);
    if cipher.None? {
      return Err(BadKey);
    }
    var text := RecordText(s, cipher.value, r);
    var last: int := text[|text| - 1];
    var paddingValid := CheckPadding(text);
    var safePaddingLength := Select(paddingValid, last + 1, 1);
    var payloadLength := |text| - safePaddingLength - MAC_LENGTH;
    var payload := text[..payloadLength];
    var receivedMac := text[payloadLength..payloadLength + MAC_LENGTH];
    var macValid := if receivedMac == RecordMac(s, r.(payload := payload), macKey) then 1 else 0;
    if And(paddingValid, macValid) != 1 {
      return Err(BadAuthentication);
    }
    return Ok(payload);
  }

  // ---------------------------------------------------------------- round trip

  lemma CiphertextLength(s: Suite, r: Record, macKey: seq<Byte>, iv: seq<Byte>, cipher: Cipher)
    requires LawfulSuite(s) && |iv| == s.blockLength && Lawful(cipher) && cipher.blockLength == s.blockLength
    ensures CbcLength(s, iv + Encrypt(cipher, iv, CbcPlaintext(s, r, macKey)))
  {
    hide CbcPlaintext, Encrypt, Lawful;
    var n := |CbcPlaintext(s, r, macKey)|;
    assert MinimumCiphertext(8) == 24 && MinimumCiphertext(16) == 32;
  }

  lemma PaddedTextParts(s: Suite, r: Record, macKey: seq<Byte>)
    requires LawfulSuite(s)
    ensures var text := CbcPlaintext(s, r, macKey);
            && |text| > MAC_LENGTH
            && PaddingRule(text) && |text| - PaddingCount(text) - MAC_LENGTH == |r.payload|
            && text[..|r.payload|] == r.payload
            && text[|r.payload|..|r.payload| + MAC_LENGTH] == RecordMac(s, r, macKey)
  {
    hide RecordMac;
    var text := CbcPlaintext(s, r, macKey);
    var n := PaddingLength(|r.payload| + MAC_LENGTH, s.blockLength);
    assert forall k :: |text| - n <= k < |text| ==> text[k] == n - 1;
  }

  lemma PaddedTextChecks(s: Suite, r: Record, macKey: seq<Byte>)
    requires LawfulSuite(s)
    ensures Authenticated(s, r, macKey, CbcPlaintext(s, r, macKey)) == Ok(r.payload)
  {
    hide RecordMac, CbcPlaintext, PaddingRule, PaddingCount;
    PaddedTextParts(s, r, macKey);
    assert r.(payload := r.payload) == r;
  }

  /** Every epoch-1 record that encodes comes back: its datagram parses to one record,
      and decrypting that gives the payload. */
  lemma EncryptThenDecrypt(s: Suite, r: Record, key: seq<Byte>, macKey: seq<Byte>, iv: seq<Byte>)
    requires LawfulSuite(s) && |iv| == s.blockLength && r.epoch == 1
    requires EncryptRecord(s, r, key, macKey, iv).Ok?
    ensures var parsed := ParseAll(EncryptRecord(s, r, key, macKey, iv).value, s.version);
            && parsed.Ok? && |parsed.value| == 1 && parsed.value[0].(payload := r.payload) == r
            && DecryptRecord(s, parsed.value[0], key, macKey) == Ok(r.payload)
  {
    hide Encrypt, Decrypt, CbcPlaintext, Authenticated, Lawful, Marshal;
    var cipher := s.newBlock(key).value;
    var text := CbcPlaintext(s, r, macKey);
    var carried := r.(payload := iv + Encrypt(cipher, iv, text));
    ParseOne(carried, s.version);
    CiphertextLength(s, r, macKey, iv, cipher);
    assert carried.payload[..s.blockLength] == iv && carried.payload[s.blockLength..] == Encrypt(cipher, iv, text);
    DecryptUndoesEncrypt(cipher, iv, text);
    PaddedTextChecks(s, r, macKey);
    SameAuthentication(s, r, carried, macKey, text);
  }

  lemma ParseOne(r: Record, version: Uint16)
    requires Encodes(r)
    ensures ParseAll(Marshal(r, version).value, version) == Ok([r])
  {
    ParseConcatenated([r], version);
    assert [r][1..] == [];
    assert Concatenated([r], version) == Marshal(r, version).value + [] == Marshal(r, version).value;
  }

  /** The MAC is computed over the recovered payload, not over the one carried. */
  lemma SameAuthentication(s: Suite, r: Record, carried: Record, macKey: seq<Byte>, text: seq<Byte>)
    requires LawfulSuite(s) && |text| > MAC_LENGTH && carried == r.(payload := carried.payload)
    ensures Authenticated(s, carried, macKey, text) == Authenticated(s, r, macKey, text)
  {
  }

  // ---------------------------------------------------------------- what is let through

  /** What the MAC covers: epoch, 48 bits of sequence, type, version, length and payload. */
  function MacInput(r: Record, version: Uint16): seq<Byte> {
    BigEndian(r.epoch, 2) + BigEndian(r.sequence, 6) + [r.contentType] + BigEndian(version, 2)
      + BigEndian(|r.payload|, 2) + r.payload
  }

  /** No two records share what is authenticated: a record cannot pass for one of another
      epoch, number, type or payload. */
  lemma MacInputIsOne(r: Record, r': Record, version: Uint16)
    requires r.sequence < 0x1_0000_0000_0000 && r'.sequence < 0x1_0000_0000_0000
    requires MacInput(r, version) == MacInput(r', version)
    ensures r == r'
  {
    hide BigEndian;
    var d, d' := MacInput(r, version), MacInput(r', version);
    assert d[..2] == BigEndian(r.epoch, 2) && d'[..2] == BigEndian(r'.epoch, 2);
    assert d[2..8] == BigEndian(r.sequence, 6) && d'[2..8] == BigEndian(r'.sequence, 6);
    assert d[8] == r.contentType && d'[8] == r'.contentType;
    assert d[13..] == r.payload && d'[13..] == r'.payload;
    assert Radix(2) == 65536 && Radix(6) == 0x1_0000_0000_0000;
    BigEndianRoundTrip(r.epoch, 2);
    BigEndianRoundTrip(r'.epoch, 2);
    BigEndianRoundTrip(r.sequence, 6);
    BigEndianRoundTrip(r'.sequence, 6);
  }

  /** text is the payload, the MAC of the payload under the record's header, and n + 1 bytes
      of value n. */
  ghost predicate Sealed(s: Suite, r: Record, macKey: seq<Byte>, text: seq<Byte>, payload: seq<Byte>, n: Byte) {
    text == payload + s.hmac(macKey, MacInput(r.(payload := payload), s.version)) + Repeat(n, n + 1)
  }

  lemma AuthenticatedExactly(s: Suite, r: Record, macKey: seq<Byte>, text: seq<Byte>, payload: seq<Byte>)
    requires LawfulSuite(s) && |text| > MAC_LENGTH
    ensures Authenticated(s, r, macKey, text) == Ok(payload) <==> Unsealed(s, r, macKey, text, payload)
    ensures Authenticated(s, r, macKey, text).Err? ==> Authenticated(s, r, macKey, text).error == BadAuthentication
  {
    hide BigEndian;
    var last: int := text[|text| - 1];
    if Authenticated(s, r, macKey, text) == Ok(payload) {
      var k := |payload|;
      assert text[k + 20..] == Repeat(last, last + 1);
      assert text == text[..k] + text[k..k + 20] + text[k + 20..];
      assert Sealed(s, r, macKey, text, payload, last);
    }
    if n: Byte :| Sealed(s, r, macKey, text, payload, n) {
      SealedParts(s, r, macKey, text, payload, n);
    }
  }

  lemma SealedParts(s: Suite, r: Record, macKey: seq<Byte>, text: seq<Byte>, payload: seq<Byte>, n: Byte)
    requires LawfulSuite(s) && Sealed(s, r, macKey, text, payload, n)
    ensures |text| == |payload| + 20 + n + 1 && text[|text| - 1] == n && PaddingRule(text)
    ensures text[..|payload|] == payload
    ensures text[|payload|..|payload| + 20] == s.hmac(macKey, MacInput(r.(payload := payload), s.version))
  {
    hide MacInput;
    assert forall k :: |text| - (n + 1) <= k < |text| ==> text[k] == n;
  }

  /** decryptLegacyDTLSRecord in full: which records give which payload, and the error of
      the others. */
  lemma DecryptExactly(s: Suite, r: Record, key: seq<Byte>, macKey: seq<Byte>, payload: seq<Byte>)
    requires LawfulSuite(s)
    ensures var result := DecryptRecord(s, r, key, macKey);
            if r.epoch != 1 then result == Err(WrongEpoch)
            else if |r.payload| % s.blockLength != 0 || |r.payload| < (if s.blockLength == 8 then 32 else 48) then
              result == Err(BadLength)
            else if s.newBlock(key).None? then result == Err(BadKey)
            else
              && (result.Err? ==> result.error == BadAuthentication)
              && (result == Ok(payload) <==>
                    Unsealed(s, r, macKey,
                             Decrypt(s.newBlock(key).value, r.payload[..s.blockLength], r.payload[s.blockLength..]), payload))
  {
    hide Decrypt, Authenticated, Lawful, Unsealed;
    LengthRule(s, r.payload);
    if DecryptRecord(s, r, key, macKey).Ok? || (r.epoch == 1 && CbcLength(s, r.payload) && s.newBlock(key).Some?) {
      AuthenticatedExactly(s, r, macKey, RecordText(s, s.newBlock(key).value, r), payload);
    }
  }

  lemma LengthRule(s: Suite, payload: seq<Byte>)
    requires s.blockLength == 8 || s.blockLength == 16
    ensures CbcLength(s, payload) <==>
              |payload| % s.blockLength == 0 && |payload| >= (if s.blockLength == 8 then 32 else 48)
  {
    assert MinimumCiphertext(8) == 24 && MinimumCiphertext(16) == 32;
  }

  ghost predicate Unsealed(s: Suite, r: Record, macKey: seq<Byte>, text: seq<Byte>, payload: seq<Byte>) {
    exists n: Byte :: Sealed(s, r, macKey, text, payload, n)
  }

  /** encryptLegacyDTLSRecord encodes exactly the records with a 48-bit number whose text,
      padded, and vector fit 65535 bytes, under a key the cipher takes. */
  lemma EncryptsExactly(s: Suite, r: Record, key: seq<Byte>, macKey: seq<Byte>, iv: seq<Byte>)
    requires LawfulSuite(s) && |iv| == s.blockLength
    ensures var result := EncryptRecord(s, r, key, macKey, iv);
            var length := s.blockLength + |r.payload| + 20 + PaddingLength(|r.payload| + 20, s.blockLength);
            if s.newBlock(key).None? then result == Err(BadKey)
            else if r.sequence >= 0x1_0000_0000_0000 then result == Err(NotEncoded(SequenceTooLarge))
            else if length > 65535 then result == Err(NotEncoded(PayloadTooLarge))
            else result.Ok? && |result.value| == 13 + length
  {
    hide Encrypt, CbcPlaintext, Lawful, Header;
  }
}
