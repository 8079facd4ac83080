/** The legacy DTLS record codec of dtls_legacy_record.go: marshalling one record and
    parsing a datagram of records. */
module DtlsRecords {
  import opened Bytes

  const HEADER := 13
  const MAX_SEQUENCE := 0xffff_ffff_ffff
  const MAX_PAYLOAD := 65535
  const CCS: Byte := 20
  const ALERT: Byte := 21
  const HANDSHAKE: Byte := 22

  datatype Record = Record(contentType: Byte, epoch: Uint16, sequence: nat, payload: seq<Byte>)

  datatype RecordError = SequenceTooLarge | PayloadTooLarge

  datatype ParseError = ShortHeader | WrongVersion | TruncatedPayload

  function Header(r: Record, version: Uint16): (h: seq<Byte>)
    ensures |h| == HEADER
  {
    [r.contentType] + BigEndian(version, 2) + BigEndian(r.epoch, 2) + BigEndian(r.sequence, 6) + BigEndian(|r.payload|, 2)
  }

  predicate Encodes(r: Record) {
    r.sequence <= MAX_SEQUENCE && |r.payload| <= MAX_PAYLOAD
  }

  /** marshalLegacyDTLSRecord. */
  function Marshal(r: Record, version: Uint16): (e: Result<seq<Byte>, RecordError>)
    ensures e.Ok? <==> Encodes(r)
    ensures e == Err(SequenceTooLarge) <==> r.sequence >= 0x1_0000_0000_0000
    ensures e == Err(PayloadTooLarge) <==> r.sequence < 0x1_0000_0000_0000 && |r.payload| > 65535
    ensures e.Ok? ==> |e.value| == HEADER + |r.payload|
  {
    if r.sequence > MAX_SEQUENCE then Err(SequenceTooLarge)
    else if |r.payload| > MAX_PAYLOAD then Err(PayloadTooLarge)
    else Ok(Header(r, version) + r.payload)
  }

  /** The first record of a datagram, or what is wrong with it. */
  function ParseFirst(datagram: seq<Byte>, version: Uint16): (r: Result<Record, ParseError>)
    ensures r.Ok? ==> HEADER + |r.value.payload| <= |datagram|
  {
    if |datagram| < HEADER then Err(ShortHeader)
    else if FromBigEndian(datagram[1..3]) != version then Err(WrongVersion)
    else
      var payloadLength := FromBigEndian(datagram[11..13]);
      if |datagram| < HEADER + payloadLength then Err(TruncatedPayload)
      else
        BigEndianBound(datagram[3..5]);
        assert Radix(2) == 65536;
        Ok(Record(datagram[0], FromBigEndian(datagram[3..5]), FromBigEndian(datagram[5..11]),
                  datagram[HEADER..HEADER + payloadLength]))
  }

  /** All the records of a datagram, from the front. */
  function ParseAll(datagram: seq<Byte>, version: Uint16): Result<seq<Record>, ParseError>
    decreases |datagram|
  {
    if datagram == [] then Ok([])
    else
      match ParseFirst(datagram, version)
      case Err(e) => Err(e)
      case Ok(r) =>
        match ParseAll(datagram[HEADER + |r.payload|..], version)
        case Err(e) => Err(e)
        case Ok(rest) => Ok([r] + rest)
  }

  /** parseLegacyDTLSRecords: the loop. */
  method ParseRecords(datagram: seq<Byte>, version: Uint16) returns (r: Result<seq<Record>, ParseError>)
    ensures r == ParseAll(datagram, version)
  {
    var records: seq<Record>, rest := [], datagram;
    assert forall tail: seq<Record> :: records + tail == tail;
    while |rest| > 0
      invariant ParseAll(datagram, version)
             == match ParseAll(rest, version)
                case Err(e) => Err(e)
                case Ok(tail) => Ok(records + tail)
      decreases |rest|
    {
      var first := ParseFirst(rest, version);
      if first.Err? {
        return Err(first.error);
      }
      ghost var before, tail := records, ParseAll(rest[HEADER + |first.value.payload|..], version);
      records := records + [first.value];
      rest := rest[HEADER + |first.value.payload|..];
      assert tail.Ok? ==> before + ([first.value] + tail.value) == records + tail.value;
    }
    assert records + [] == records;
    return Ok(records);
  }

  // ---------------------------------------------------------------- codec laws

  lemma HeaderFields(r: Record, version: Uint16, rest: seq<Byte>)
    requires Encodes(r)
    ensures var d := Header(r, version) + rest;
            && d[0] == r.contentType
            && FromBigEndian(d[1..3]) == version
            && FromBigEndian(d[3..5]) == r.epoch
            && FromBigEndian(d[5..11]) == r.sequence
            && FromBigEndian(d[11..13]) == |r.payload|
            && d[HEADER..] == rest
  {
    hide BigEndian, FromBigEndian;
    assert Radix(2) == 65536 && Radix(6) == MAX_SEQUENCE + 1;
    BigEndianRoundTrip(version, 2);
    BigEndianRoundTrip(r.epoch, 2);
    BigEndianRoundTrip(r.sequence, 6);
    BigEndianRoundTrip(|r.payload|, 2);
    var d := Header(r, version) + rest;
    assert d[1..3] == BigEndian(version, 2);
    assert d[3..5] == BigEndian(r.epoch, 2);
    assert d[5..11] == BigEndian(r.sequence, 6);
    assert d[11..13] == BigEndian(|r.payload|, 2);
  }

  /** A marshalled record is read back, whatever follows it. */
  lemma ParseMarshalled(r: Record, version: Uint16, rest: seq<Byte>)
    requires Encodes(r)
    ensures ParseFirst(Marshal(r, version).value + rest, version) == Ok(r)
    ensures (Marshal(r, version).value + rest)[HEADER + |r.payload|..] == rest
  {
    hide Header, FromBigEndian;
    var d := Marshal(r, version).value + rest;
    assert d == Header(r, version) + (r.payload + rest);
    HeaderFields(r, version, r.payload + rest);
    assert d[HEADER..HEADER + |r.payload|] == r.payload;
  }

  /** A record that was read is one that marshals to the bytes it was read from. */
  lemma MarshalParsed(datagram: seq<Byte>, version: Uint16)
    requires ParseFirst(datagram, version).Ok?
    ensures var r := ParseFirst(datagram, version).value;
            && Encodes(r)
            && Marshal(r, version).value == datagram[..HEADER + |r.payload|]
  {
    hide BigEndian, FromBigEndian;
    var r := ParseFirst(datagram, version).value;
    assert Radix(2) == 65536 && Radix(6) == MAX_SEQUENCE + 1;
    BigEndianBound(datagram[5..11]);
    BigEndianBound(datagram[11..13]);
    FromBigEndianRoundTrip(datagram[1..3]);
    FromBigEndianRoundTrip(datagram[3..5]);
    FromBigEndianRoundTrip(datagram[5..11]);
    FromBigEndianRoundTrip(datagram[11..13]);
    assert Header(r, version) == datagram[..HEADER];
    assert datagram[..HEADER + |r.payload|] == datagram[..HEADER] + datagram[HEADER..HEADER + |r.payload|];
  }

  ghost predicate AllEncode(records: seq<Record>) {
    forall r :: r in records ==> Encodes(r)
  }

  ghost function Concatenated(records: seq<Record>, version: Uint16): seq<Byte>
    requires AllEncode(records)
  {
    if records == [] then [] else Marshal(records[0], version).value + Concatenated(records[1..], version)
  }

  /** Any concatenation of marshalled records parses back to the same list. */
  lemma {:induction false} ParseConcatenated(records: seq<Record>, version: Uint16)
    requires AllEncode(records)
    ensures ParseAll(Concatenated(records, version), version) == Ok(records)
    decreases |records|
  {
    hide Marshal, ParseFirst;
    if records != [] {
      ParseMarshalled(records[0], version, Concatenated(records[1..], version));
      ParseConcatenated(records[1..], version);
      assert [records[0]] + records[1..] == records;
    }
  }

  lemma PrependRecord(r: Record, rest: seq<Record>, version: Uint16)
    requires Encodes(r) && AllEncode(rest)
    ensures AllEncode([r] + rest)
    ensures Concatenated([r] + rest, version) == Marshal(r, version).value + Concatenated(rest, version)
  {
    assert ([r] + rest)[1..] == rest;
  }

  /** A datagram parses exactly when it is such a concatenation, and then in one way. */
  lemma {:induction false} ParseExact(datagram: seq<Byte>, version: Uint16)
    requires ParseAll(datagram, version).Ok?
    ensures AllEncode(ParseAll(datagram, version).value)
    ensures Concatenated(ParseAll(datagram, version).value, version) == datagram
    decreases |datagram|
  {
    hide Marshal, ParseFirst;
    if datagram != [] {
      var r := ParseFirst(datagram, version).value;
      var tail := datagram[HEADER + |r.payload|..];
      MarshalParsed(datagram, version);
      ParseExact(tail, version);
      PrependRecord(r, ParseAll(tail, version).value, version);
      assert datagram == datagram[..HEADER + |r.payload|] + tail;
    }
  }

  // ---------------------------------------------------------------- what is refused

  /** A record cut short is reported as such: in its 13 bytes of header or in its payload. */
  lemma FrontIsRefused(r: Record, version: Uint16, k: nat)
    requires Encodes(r) && 0 < k < 13 + |r.payload|
    ensures ParseFirst(Marshal(r, version).value[..k], version) == Err(if k < 13 then ShortHeader else TruncatedPayload)
  {
    hide Header, FromBigEndian;
    if k >= 13 {
      var front := r.payload[..k - 13];
      assert Marshal(r, version).value[..k] == Header(r, version) + front;
      HeaderFields(r, version, front);
    }
  }

  /** A record of another version is refused, whatever follows it. */
  lemma OtherVersionIsRefused(r: Record, version: Uint16, expected: Uint16, rest: seq<Byte>)
    requires Encodes(r) && version != expected
    ensures ParseFirst(Marshal(r, version).value + rest, expected) == Err(WrongVersion)
  {
    hide Header, FromBigEndian;
    assert Marshal(r, version).value + rest == Header(r, version) + (r.payload + rest);
    HeaderFields(r, version, r.payload + rest);
  }

  /** Good records do not save a datagram: the first thing wrong after them is reported. */
  lemma {:induction false} FirstErrorIsReported(records: seq<Record>, version: Uint16, bad: seq<Byte>)
    requires AllEncode(records) && bad != [] && ParseFirst(bad, version).Err?
    ensures ParseAll(Concatenated(records, version) + bad, version) == Err(ParseFirst(bad, version).error)
    decreases |records|
  {
    hide Marshal, ParseFirst;
    if records == [] {
      assert [] + bad == bad;
    } else {
      var rest := Concatenated(records[1..], version);
      var whole := Marshal(records[0], version).value + (rest + bad);
      assert Concatenated(records, version) + bad == whole;
      ParseMarshalled(records[0], version, rest + bad);
      FirstErrorIsReported(records[1..], version, bad);
      MarshalledLength(records[0], version);
    }
  }

  lemma MarshalledLength(r: Record, version: Uint16)
    requires Encodes(r)
    ensures |Marshal(r, version).value| > 0
  {
  }
}
