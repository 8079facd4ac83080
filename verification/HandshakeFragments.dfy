/** Cutting a DTLS 1.0 handshake message into records that fit the MTU:
    marshalCertificateDTLSHandshake and marshalUnencryptedHandshakeRecords. */
module HandshakeFragments {
  import opened Bytes
  import opened DtlsRecords

  const HANDSHAKE_HEADER := 12
  const MAX_BODY := 0xff_ffff

  datatype Message = Message(messageType: Byte, sequence: Uint16, body: seq<Byte>)

  /** A stretch of a message body. */
  datatype Span = Span(offset: nat, length: nat)

  datatype FragmentError =
    | ShortMessage | WrongLength | MtuTooSmall | SequenceExhausted | RecordTooLarge | ExceedsMtu

  predicate InBody(m: Message, span: Span) {
    span.offset + span.length <= |m.body|
  }

  /** One handshake fragment on the wire. */
  function FragmentBytes(m: Message, span: Span): (r: seq<Byte>)
    requires InBody(m, span)
    ensures |r| == HANDSHAKE_HEADER + span.length
  {
    [m.messageType] + BigEndian(|m.body|, 3) + BigEndian(m.sequence, 2) + BigEndian(span.offset, 3)
      + BigEndian(span.length, 3) + m.body[span.offset..span.offset + span.length]
  }

  /** marshalCertificateDTLSHandshake: the whole message as one fragment. */
  function MarshalMessage(m: Message): seq<Byte> {
    FragmentBytes(m, Span(0, |m.body|))
  }

  /** The message a handshake byte string stands for; bytes 6 to 11 are not looked at. */
  function MessageOf(message: seq<Byte>): Message
    requires |message| >= HANDSHAKE_HEADER
  {
    BigEndianBound(message[4..6]);
    assert Radix(2) == 65536;
    Message(message[0], FromBigEndian(message[4..6]), message[HANDSHAKE_HEADER..])
  }

  predicate WellFormedMessage(message: seq<Byte>) {
    |message| >= HANDSHAKE_HEADER && |message| == HANDSHAKE_HEADER + FromBigEndian(message[1..4])
  }

  /** What a fragment header copied from the message says about it. */
  lemma CopiedHeader(message: seq<Byte>)
    requires WellFormedMessage(message)
    ensures |MessageOf(message).body| <= MAX_BODY
    ensures [message[0]] + message[1..6]
         == [MessageOf(message).messageType] + BigEndian(|MessageOf(message).body|, 3)
            + BigEndian(MessageOf(message).sequence, 2)
  {
    hide BigEndian, FromBigEndian;
    FromBigEndianRoundTrip(message[1..4]);
    FromBigEndianRoundTrip(message[4..6]);
    BigEndianBound(message[1..4]);
    assert Radix(3) == MAX_BODY + 1;
    assert message[1..6] == message[1..4] + message[4..6];
  }

  /** A marshalled message is well formed and stands for the message it was made from. */
  lemma MessageRoundTrip(m: Message)
    requires |m.body| <= MAX_BODY
    ensures WellFormedMessage(MarshalMessage(m)) && MessageOf(MarshalMessage(m)) == m
  {
    hide BigEndian, FromBigEndian;
    assert Radix(3) == MAX_BODY + 1 && Radix(2) == 65536;
    BigEndianRoundTrip(|m.body|, 3);
    BigEndianRoundTrip(m.sequence, 2);
    var d := MarshalMessage(m);
    assert d[1..4] == BigEndian(|m.body|, 3);
    assert d[4..6] == BigEndian(m.sequence, 2);
    assert d[HANDSHAKE_HEADER..] == m.body;
  }

  // ---------------------------------------------------------------- the cut

  /** The fragment length in force: no limit without an MTU. */
  function FragmentLimit(total: nat, mtu: int): int {
    if total == 0 then 0
    else if mtu > 0 then mtu - HEADER - HANDSHAKE_HEADER
    else total
  }

  /** The stretches from offset on, each as long as the limit allows. */
  function CutFrom(total: nat, limit: nat, offset: nat): (r: seq<Span>)
    requires limit > 0
    ensures forall s :: s in r ==> offset <= s.offset && s.offset + s.length <= total && s.length <= limit
    decreases total - offset
  {
    if offset >= total then []
    else
      var length := if limit > total - offset then total - offset else limit;
      [Span(offset, length)] + CutFrom(total, limit, offset + length)
  }

  function Cut(total: nat, mtu: int): (r: seq<Span>)
    requires total > 0 ==> FragmentLimit(total, mtu) > 0
    ensures forall s :: s in r ==> s.offset + s.length <= total && s.length <= FragmentLimit(total, mtu)
    ensures r != []
  {
    if total == 0 then [Span(0, 0)] else CutFrom(total, FragmentLimit(total, mtu), 0)
  }

  /** The length of the longest stretch. */
  function Longest(total: nat, mtu: int): nat {
    if 0 < FragmentLimit(total, mtu) < total then FragmentLimit(total, mtu) else total
  }

  lemma FirstIsLongest(total: nat, mtu: int)
    requires total > 0 ==> FragmentLimit(total, mtu) > 0
    ensures Cut(total, mtu)[0].length == Longest(total, mtu)
    ensures forall s :: s in Cut(total, mtu) ==> s.length <= Longest(total, mtu)
  {
  }

  ghost predicate Covers(spans: seq<Span>, i: nat) {
    exists s :: s in spans && s.offset <= i < s.offset + s.length
  }

  lemma {:induction false} CutFromCovers(total: nat, limit: nat, offset: nat, i: nat)
    requires limit > 0 && offset <= i < total
    ensures Covers(CutFrom(total, limit, offset), i)
    decreases total - offset
  {
    var length := if limit > total - offset then total - offset else limit;
    var rest := CutFrom(total, limit, offset + length);
    var whole := CutFrom(total, limit, offset);
    assert whole == [Span(offset, length)] + rest;
    if i < offset + length {
      assert whole[0] in whole;
    } else {
      CutFromCovers(total, limit, offset + length, i);
      var s :| s in rest && s.offset <= i < s.offset + s.length;
      assert s in whole;
    }
  }

  /** Together the stretches are the whole body. */
  lemma CutCovers(total: nat, mtu: int, i: nat)
    requires total > 0 ==> FragmentLimit(total, mtu) > 0
    requires i < total
    ensures Covers(Cut(total, mtu), i)
  {
    CutFromCovers(total, FragmentLimit(total, mtu), 0, i);
  }

  // ---------------------------------------------------------------- the records

  /** The record that carries one fragment. */
  function Carrier(m: Message, span: Span, sequence: nat): Record
    requires InBody(m, span)
  {
    Record(HANDSHAKE, 0, sequence, FragmentBytes(m, span))
  }

  /** The bytes are that record, and it fits the MTU if there is one. */
  ghost predicate Carries(m: Message, span: Span, sequence: nat, version: Uint16, mtu: int, encoded: seq<Byte>) {
    && InBody(m, span)
    && Marshal(Carrier(m, span, sequence), version) == Ok(encoded)
    && (mtu > 0 ==> |encoded| <= mtu)
  }

  /** One record for each stretch, numbered from first on. */
  ghost predicate CarriesAll(m: Message, spans: seq<Span>, first: nat, version: Uint16, mtu: int, records: seq<seq<Byte>>) {
    && |records| == |spans|
    && forall i :: 0 <= i < |spans| ==> Carries(m, spans[i], first + i, version, mtu, records[i])
  }

  lemma CarriesOneMore(m: Message, spans: seq<Span>, first: nat, version: Uint16, mtu: int, records: seq<seq<Byte>>,
                       span: Span, encoded: seq<Byte>)
    requires CarriesAll(m, spans, first, version, mtu, records)
    requires Carries(m, span, first + |spans|, version, mtu, encoded)
    ensures CarriesAll(m, spans + [span], first, version, mtu, records + [encoded])
  {
  }

  /** Some record of the cut has a number over 48 bits or a payload over 65535 bytes. */
  ghost predicate SomeCannotEncode(m: Message, mtu: int, first: nat) {
    && (|m.body| > 0 ==> FragmentLimit(|m.body|, mtu) > 0)
    && var spans := Cut(|m.body|, mtu);
       exists k :: 0 <= k < |spans| && InBody(m, spans[k]) && !Encodes(Carrier(m, spans[k], first + k))
  }

  /** Why a record with this number that cannot encode is refused. */
  function RecordFailure(sequence: nat): FragmentError {
    if sequence >= 0x1_0000_0000_0000 then SequenceExhausted else RecordTooLarge
  }

  /** Record k of the cut cannot encode, and those before it can. */
  ghost predicate FailsFirst(m: Message, mtu: int, first: nat, k: int) {
    && (|m.body| > 0 ==> FragmentLimit(|m.body|, mtu) > 0)
    && var spans := Cut(|m.body|, mtu);
       && 0 <= k < |spans| && InBody(m, spans[k]) && !Encodes(Carrier(m, spans[k], first + k))
       && forall j :: 0 <= j < k ==> InBody(m, spans[j]) && Encodes(Carrier(m, spans[j], first + j))
  }

  /** The handshake sender: its MTU, its record version and its record counter. */
  class HandshakeSender {
    const mtu: int
    const version: Uint16
    var clientRecordSequence: nat

    constructor (mtu: int, version: Uint16)
      ensures this.mtu == mtu && this.version == version && clientRecordSequence == 0
    {
      this.mtu, this.version, clientRecordSequence := mtu, version, 0;
    }

    /** marshalUnencryptedRecord. */
    method MarshalRecord(payload: seq<Byte>, contentType: Byte) returns (r: Result<seq<Byte>, FragmentError>)
      modifies this`clientRecordSequence
      ensures var record := Record(contentType, 0, old(clientRecordSequence), payload);
              if Encodes(record)
              then r == Ok(Marshal(record, version).value) && clientRecordSequence == old(clientRecordSequence) + 1
              else r == Err(RecordFailure(old(clientRecordSequence))) && clientRecordSequence == old(clientRecordSequence)
    {
      if clientRecordSequence > MAX_SEQUENCE {
        return Err(SequenceExhausted);
      }
      var encoded := Marshal(Record(contentType, 0, clientRecordSequence, payload), version);
      if encoded.Err? {
        return Err(RecordTooLarge);
      }
      clientRecordSequence := clientRecordSequence + 1;
      return Ok(encoded.value);
    }

    /** marshalUnencryptedHandshakeRecords: one record for each stretch of the cut, with
        consecutive numbers, none longer than the MTU. The check of a finished record
        against the MTU never fails. */
    method MarshalHandshakeRecords(message: seq<Byte>) returns (r: Result<seq<seq<Byte>>, FragmentError>)
      modifies this`clientRecordSequence
      ensures r != Err(ExceedsMtu)
      ensures |message| < 12 ==> r == Err(ShortMessage) && clientRecordSequence == old(clientRecordSequence)
      ensures |message| >= 12 && !WellFormedMessage(message) ==>
                r == Err(WrongLength) && clientRecordSequence == old(clientRecordSequence)
      ensures WellFormedMessage(message) && 0 < mtu <= 25 ==>
                r == Err(MtuTooSmall) && clientRecordSequence == old(clientRecordSequence)
      ensures r.Err? && WellFormedMessage(message) && !(0 < mtu <= 25) ==>
                && SomeCannotEncode(MessageOf(message), mtu, old(clientRecordSequence))
                && r.error == RecordFailure(clientRecordSequence)
                && FailsFirst(MessageOf(message), mtu, old(clientRecordSequence), clientRecordSequence - old(clientRecordSequence))
      ensures r.Ok? ==>
        && WellFormedMessage(message)
        && var m := MessageOf(message);
        && (|m.body| > 0 ==> FragmentLimit(|m.body|, mtu) > 0)
        && CarriesAll(m, Cut(|m.body|, mtu), old(clientRecordSequence), version, mtu, r.value)
        && clientRecordSequence == old(clientRecordSequence) + |r.value|
    {
      if |message| < HANDSHAKE_HEADER {
        return Err(ShortMessage);
      }
      var totalLength := FromBigEndian(message[1..4]);
      if |message| != HANDSHAKE_HEADER + totalLength {
        return Err(WrongLength);
      }
      var limit: int := totalLength;
      if mtu > 0 {
        limit := mtu - HEADER - HANDSHAKE_HEADER;
        if limit <= 0 {
          return Err(MtuTooSmall);
        }
      }
      if totalLength == 0 {
        limit := 0;
      }
      r := MarshalFragments(message, totalLength, limit);
    }

    /** The loop over the stretches. */
    method MarshalFragments(message: seq<Byte>, totalLength: nat, limit: nat) returns (r: Result<seq<seq<Byte>>, FragmentError>)
      requires WellFormedMessage(message) && totalLength == |MessageOf(message).body|
      requires limit == FragmentLimit(totalLength, mtu) && (totalLength > 0 ==> limit > 0)
      requires mtu > 0 ==> limit <= mtu - HEADER - HANDSHAKE_HEADER
      modifies this`clientRecordSequence
      ensures r != Err(ExceedsMtu)
      ensures r.Err? ==>
        && SomeCannotEncode(MessageOf(message), mtu, old(clientRecordSequence))
        && r.error == RecordFailure(clientRecordSequence)
        && FailsFirst(MessageOf(message), mtu, old(clientRecordSequence), clientRecordSequence - old(clientRecordSequence))
      ensures r.Ok? ==>
        && CarriesAll(MessageOf(message), Cut(totalLength, mtu), old(clientRecordSequence), version, mtu, r.value)
        && clientRecordSequence == old(clientRecordSequence) + |r.value|
    {
      hide Carries, CarriesAll, CutFrom, MessageOf, FromBigEndian, SomeCannotEncode, FailsFirst, Carrier, Encodes;
      ghost var m := MessageOf(message);
      ghost var done: seq<Span> := [];
      CarriesNone(m, clientRecordSequence, version, mtu);
      var records: seq<seq<Byte>> := [];
      var offset: nat := 0;
      while offset < totalLength || offset == 0
        invariant offset <= totalLength && clientRecordSequence == old(clientRecordSequence) + |records|
        invariant |records| == |done| && CarriesAll(m, done, old(clientRecordSequence), version, mtu, records)
        invariant totalLength > 0 ==> done + CutFrom(totalLength, limit, offset) == Cut(totalLength, mtu)
        invariant totalLength == 0 ==> done == []
        decreases totalLength - offset
      {
        var length := if limit > totalLength - offset then totalLength - offset else limit;
        var record := MarshalFragment(message, offset, length);
        if record.Err? {
          FailureHere(m, done, limit, offset, length, mtu, old(clientRecordSequence), version, records);
          return Err(record.error);
        }
        CarriesOneMore(m, done, old(clientRecordSequence), version, mtu, records, Span(offset, length), record.value);
        records := records + [record.value];
        if totalLength == 0 {
          assert done + [Span(offset, length)] == [Span(0, 0)];
          return Ok(records);
        }
        CutStep(done, totalLength, limit, offset);
        done := done + [Span(offset, length)];
        offset := offset + length;
      }
      CutEnds(totalLength, limit);
      assert done + [] == done;
      return Ok(records);
    }

    /** One fragment: the copied header, its own offset and length, its bytes. */
    method MarshalFragment(message: seq<Byte>, offset: nat, length: nat) returns (r: Result<seq<Byte>, FragmentError>)
      requires WellFormedMessage(message) && offset + length <= |MessageOf(message).body|
      requires mtu > 0 ==> length <= mtu - HEADER - HANDSHAKE_HEADER
      modifies this`clientRecordSequence
      ensures r != Err(ExceedsMtu)
      ensures r.Err? ==>
        && !Encodes(Carrier(MessageOf(message), Span(offset, length), old(clientRecordSequence)))
        && r.error == RecordFailure(old(clientRecordSequence)) && clientRecordSequence == old(clientRecordSequence)
      ensures r.Ok? ==>
        && Carries(MessageOf(message), Span(offset, length), old(clientRecordSequence), version, mtu, r.value)
        && clientRecordSequence == old(clientRecordSequence) + 1
    {
      hide BigEndian, FromBigEndian, Header;
      var fragment := [message[0]] + message[1..6] + BigEndian(offset, 3) + BigEndian(length, 3)
        + message[HANDSHAKE_HEADER + offset..HANDSHAKE_HEADER + offset + length];
      CopiedHeader(message);
      assert message[HANDSHAKE_HEADER + offset..HANDSHAKE_HEADER + offset + length]
          == MessageOf(message).body[offset..offset + length];
      assert fragment == FragmentBytes(MessageOf(message), Span(offset, length));
      r := MarshalRecord(fragment, HANDSHAKE);
      if r.Ok? && mtu > 0 && |r.value| > mtu {
        r := Err(ExceedsMtu);
      }
    }
  }

  lemma CarriesNone(m: Message, first: nat, version: Uint16, mtu: int)
    ensures CarriesAll(m, [], first, version, mtu, [])
  {
  }

  lemma CutEnds(total: nat, limit: nat)
    requires limit > 0
    ensures CutFrom(total, limit, total) == []
  {
  }

  /** The stretch being marshalled is the one of that number in the cut. */
  lemma CutPlace(done: seq<Span>, total: nat, limit: nat, offset: nat, mtu: int)
    requires limit == FragmentLimit(total, mtu) && (total > 0 ==> limit > 0)
    requires total == 0 ==> done == [] && offset == 0
    requires total > 0 ==> offset < total && done + CutFrom(total, limit, offset) == Cut(total, mtu)
    ensures var length := if limit > total - offset then total - offset else limit;
            |done| < |Cut(total, mtu)| && Cut(total, mtu)[|done|] == Span(offset, length)
  {
  }

  /** What has been marshalled is the front of the cut, and it encodes. */
  lemma DoneEncodes(m: Message, done: seq<Span>, total: nat, limit: nat, offset: nat, mtu: int, first: nat, version: Uint16,
                    records: seq<seq<Byte>>)
    requires limit == FragmentLimit(total, mtu) && (total > 0 ==> limit > 0)
    requires total == 0 ==> done == []
    requires total > 0 ==> done + CutFrom(total, limit, offset) == Cut(total, mtu)
    requires CarriesAll(m, done, first, version, mtu, records)
    ensures |done| <= |Cut(total, mtu)|
    ensures forall j :: 0 <= j < |done| ==> InBody(m, Cut(total, mtu)[j]) && Encodes(Carrier(m, Cut(total, mtu)[j], first + j))
  {
    hide FragmentBytes, CutFrom;
    forall j | 0 <= j < |done| ensures InBody(m, Cut(total, mtu)[j]) && Encodes(Carrier(m, Cut(total, mtu)[j], first + j)) {
      assert Cut(total, mtu)[j] == done[j];
      assert Carries(m, done[j], first + j, version, mtu, records[j]);
    }
  }

  /** The stretch in hand is the first whose record cannot encode. */
  lemma FailureHere(m: Message, done: seq<Span>, limit: nat, offset: nat, length: nat, mtu: int, first: nat,
                    version: Uint16, records: seq<seq<Byte>>)
    requires limit == FragmentLimit(|m.body|, mtu) && (|m.body| > 0 ==> limit > 0)
    requires |m.body| == 0 ==> done == [] && offset == 0
    requires |m.body| > 0 ==> offset < |m.body| && done + CutFrom(|m.body|, limit, offset) == Cut(|m.body|, mtu)
    requires CarriesAll(m, done, first, version, mtu, records)
    requires offset <= |m.body| && length == if limit > |m.body| - offset then |m.body| - offset else limit
    requires !Encodes(Carrier(m, Span(offset, length), first + |done|))
    ensures SomeCannotEncode(m, mtu, first) && FailsFirst(m, mtu, first, |done|)
  {
    hide CutFrom, CarriesAll, Cut, Encodes, Carrier;
    CutPlace(done, |m.body|, limit, offset, mtu);
    DoneEncodes(m, done, |m.body|, limit, offset, mtu, first, version, records);
  }

  lemma CutStep(done: seq<Span>, total: nat, limit: nat, offset: nat)
    requires limit > 0 && offset < total
    ensures var length := if limit > total - offset then total - offset else limit;
            done + CutFrom(total, limit, offset)
              == (done + [Span(offset, length)]) + CutFrom(total, limit, offset + length)
  {
  }

  // ---------------------------------------------------------------- how it is cut

  /** Stretch i stands at offset + i * limit and is as long as the limit, but for the last. */
  ghost predicate Placed(s: Span, total: nat, limit: nat, place: nat) {
    s.offset == place < total && s.length == if total - place < limit then total - place else limit
  }

  lemma {:induction false} CutFromPlaces(total: nat, limit: nat, offset: nat, i: nat)
    requires limit > 0 && offset < total && i < |CutFrom(total, limit, offset)|
    ensures Placed(CutFrom(total, limit, offset)[i], total, limit, offset + i * limit)
    ensures i == |CutFrom(total, limit, offset)| - 1 ==> total <= offset + i * limit + limit
    decreases i
  {
    hide CutFrom;
    CutFromFirst(total, limit, offset);
    if i > 0 {
      assert offset + limit < total;
      CutFromPlaces(total, limit, offset + limit, i - 1);
      OneMore(i, limit);
    }
  }

  lemma OneMore(i: nat, limit: nat)
    requires i > 0
    ensures i * limit == (i - 1) * limit + limit
  {
  }

  lemma CutFromFirst(total: nat, limit: nat, offset: nat)
    requires limit > 0 && offset < total
    ensures var length := if total - offset < limit then total - offset else limit;
            && CutFrom(total, limit, offset) == [Span(offset, length)] + CutFrom(total, limit, offset + length)
            && (offset + length < total <==> CutFrom(total, limit, offset + length) != [])
  {
  }

  /** The cut uses the MTU to the full: every record but the last has exactly mtu bytes, and
      without an MTU, or with an empty body, there is one. */
  lemma CutUsesMtu(total: nat, mtu: int, i: nat)
    requires total > 0 && mtu > 25 && i < |Cut(total, mtu)|
    ensures var s := Cut(total, mtu)[i];
            && s.offset == i * (mtu - 25) < total
            && s.length == (if total - s.offset < mtu - 25 then total - s.offset else mtu - 25)
            && (i + 1 < |Cut(total, mtu)| <==> total > s.offset + mtu - 25)
  {
    hide CutFrom;
    var limit := mtu - 25;
    CutFromPlaces(total, limit, 0, i);
    if i + 1 < |Cut(total, mtu)| {
      CutFromPlaces(total, limit, 0, i + 1);
      OneMore(i + 1, limit);
    }
  }

  lemma CutInOne(total: nat, mtu: int)
    requires total == 0 || mtu <= 0
    ensures (total > 0 ==> FragmentLimit(total, mtu) > 0) && Cut(total, mtu) == [Span(0, total)]
  {
    if total > 0 {
      CutFromFirst(total, total, 0);
    }
  }

  /** A fragment on the wire: type, 24 bits of total length, 16 of sequence, 24 of offset, 24
      of length, and the bytes. */
  lemma FragmentFields(m: Message, span: Span)
    requires InBody(m, span) && |m.body| < 0x100_0000
    ensures var d := FragmentBytes(m, span);
            && |d| == 12 + span.length && d[0] == m.messageType
            && FromBigEndian(d[1..4]) == |m.body| && FromBigEndian(d[4..6]) == m.sequence
            && FromBigEndian(d[6..9]) == span.offset && FromBigEndian(d[9..12]) == span.length
            && d[12..] == m.body[span.offset..span.offset + span.length]
  {
    hide BigEndian, FromBigEndian;
    assert Radix(2) == 65536 && Radix(3) == 0x100_0000;
    BigEndianRoundTrip(|m.body|, 3);
    BigEndianRoundTrip(m.sequence, 2);
    BigEndianRoundTrip(span.offset, 3);
    BigEndianRoundTrip(span.length, 3);
    var d := FragmentBytes(m, span);
    assert d[1..4] == BigEndian(|m.body|, 3) && d[4..6] == BigEndian(m.sequence, 2);
    assert d[6..9] == BigEndian(span.offset, 3) && d[9..12] == BigEndian(span.length, 3);
  }
}
