/** Fragmentation and reassembly cancel: the records of one message, in any order and
    with any repetition, leave exactly that message in the reassembler. */
module HandshakeRoundTrip {
  import opened Bytes
  import opened DtlsRecords
  import opened HandshakeFragments
  import opened HandshakeReassembly

  /** What has arrived after some stretches of m: those bytes, zero elsewhere. */
  ghost function PartialOf(m: Message, spans: seq<Span>): (f: Partial)
    ensures ShapedPartial(f)
  {
    Partial(m.messageType, |m.body|,
            seq(|m.body|, i requires 0 <= i < |m.body| => if Covers(spans, i) then m.body[i] else 0),
            seq(|m.body|, i requires 0 <= i < |m.body| => Covers(spans, i)))
  }

  ghost predicate CoversAll(m: Message, spans: seq<Span>) {
    forall i :: 0 <= i < |m.body| ==> Covers(spans, i)
  }

  /** The reassembler after those stretches and nothing else. */
  ghost function After(m: Message, spans: seq<Span>): (r: Reassembly)
    ensures Shaped(r)
  {
    if spans == [] then EMPTY
    else if CoversAll(m, spans) then Reassembly(map[], map[m.sequence := m], |m.body|)
    else Reassembly(map[m.sequence := PartialOf(m, spans)], map[], 2 * |m.body|)
  }

  ghost function PieceOf(m: Message, span: Span): Piece
    requires InBody(m, span)
  {
    Piece(m.messageType, |m.body|, m.sequence, span.offset, m.body[span.offset..span.offset + span.length])
  }

  /** A fragment of m is parsed as the piece it is. */
  lemma ParseFragment(m: Message, span: Span)
    requires InBody(m, span) && |m.body| <= MAX_BODY
    ensures ParsePiece(FragmentBytes(m, span)) == Ok(PieceOf(m, span))
  {
    hide BigEndian, FromBigEndian;
    assert Radix(3) == MAX_BODY + 1 && Radix(2) == 65536;
    BigEndianRoundTrip(|m.body|, 3);
    BigEndianRoundTrip(m.sequence, 2);
    BigEndianRoundTrip(span.offset, 3);
    BigEndianRoundTrip(span.length, 3);
    var d := FragmentBytes(m, span);
    assert d[1..4] == BigEndian(|m.body|, 3);
    assert d[4..6] == BigEndian(m.sequence, 2);
    assert d[6..9] == BigEndian(span.offset, 3);
    assert d[9..12] == BigEndian(span.length, 3);
    assert d[HANDSHAKE_HEADER..HANDSHAKE_HEADER + span.length] == m.body[span.offset..span.offset + span.length];
  }

  lemma {:induction false} TrueBytesAgree(m: Message, spans: seq<Span>, offset: nat, data: seq<Byte>)
    requires offset + |data| <= |m.body| && data == m.body[offset..offset + |data|]
    ensures Agreeing(PartialOf(m, spans), offset, data) == |data|
    decreases |data|
  {
    if data != [] {
      assert data[0] == m.body[offset];
      assert data[1..] == m.body[offset + 1..offset + |data|];
      TrueBytesAgree(m, spans, offset + 1, data[1..]);
    }
  }

  lemma CoversOneMore(spans: seq<Span>, span: Span, i: nat)
    ensures Covers(spans + [span], i) <==> Covers(spans, i) || span.offset <= i < span.offset + span.length
  {
    if span.offset <= i < span.offset + span.length {
      assert span in spans + [span];
    }
    if Covers(spans, i) {
      var s :| s in spans && s.offset <= i < s.offset + s.length;
      assert s in spans + [span];
    }
  }

  /** Writing a stretch of the true body extends what has arrived by that stretch. */
  lemma WriteStretch(m: Message, spans: seq<Span>, span: Span)
    requires InBody(m, span)
    ensures Write(PartialOf(m, spans), span.offset, m.body[span.offset..span.offset + span.length])
         == PartialOf(m, spans + [span])
  {
    hide Covers;
    var g := Write(PartialOf(m, spans), span.offset, m.body[span.offset..span.offset + span.length]);
    var h := PartialOf(m, spans + [span]);
    forall i | 0 <= i < |m.body| ensures g.body[i] == h.body[i] && g.received[i] == h.received[i] {
      CoversOneMore(spans, span, i);
    }
    assert g.body == h.body && g.received == h.received;
  }

  lemma FreshPartial(m: Message, span: Span)
    requires InBody(m, span)
    ensures NewPartial(PieceOf(m, span)) == PartialOf(m, [])
  {
    assert forall i :: 0 <= i < |m.body| ==> !Covers([], i);
    assert Zeros(|m.body|) == PartialOf(m, []).body;
    assert Flags(|m.body|, false) == PartialOf(m, []).received;
  }

  /** A complete partial message holds the body. */
  lemma CompletePartial(m: Message, spans: seq<Span>)
    ensures AllReceived(PartialOf(m, spans)) <==> CoversAll(m, spans)
    ensures CoversAll(m, spans) ==> PartialOf(m, spans).body == m.body
  {
    hide Covers;
    assert forall i :: 0 <= i < |m.body| ==> PartialOf(m, spans).received[i] == Covers(spans, i);
  }

  /** Merging a stretch into the one partial message there is. */
  lemma MergeStretch(m: Message, spans: seq<Span>, span: Span)
    requires InBody(m, span)
    ensures Merge(Reassembly(map[m.sequence := PartialOf(m, spans)], map[], 2 * |m.body|), PieceOf(m, span))
         == Step(After(m, spans + [span]), None)
  {
    hide PartialOf, CoversAll, Write, Agreeing, AllReceived;
    var r := Reassembly(map[m.sequence := PartialOf(m, spans)], map[], 2 * |m.body|);
    var p := PieceOf(m, span);
    TrueBytesAgree(m, spans, span.offset, p.data);
    WriteStretch(m, spans, span);
    CompletePartial(m, spans + [span]);
    PartialHeader(m, spans);
    assert r.fragments - {m.sequence} == map[];
    assert r.fragments[m.sequence := PartialOf(m, spans + [span])] == map[m.sequence := PartialOf(m, spans + [span])];
    assert r.messages[m.sequence := m] == map[m.sequence := m];
    assert Message(p.messageType, p.sequence, m.body) == m;
  }

  lemma PartialHeader(m: Message, spans: seq<Span>)
    ensures PartialOf(m, spans).messageType == m.messageType && PartialOf(m, spans).totalLength == |m.body|
  {
  }

  /** One more stretch of m, new or repeated, is never refused. */
  lemma FeedOne(m: Message, spans: seq<Span>, span: Span)
    requires InBody(m, span) && |m.body| <= MAX_BODY
    ensures AddPiece(After(m, spans), PieceOf(m, span)) == Step(After(m, spans + [span]), None)
  {
    hide Merge, PartialOf, Covers;
    if spans == [] {
      FreshPartial(m, span);
      MergeStretch(m, [], span);
      assert map[][m.sequence := PartialOf(m, [])] == map[m.sequence := PartialOf(m, [])];
    } else if CoversAll(m, spans) {
      forall i | 0 <= i < |m.body| ensures Covers(spans + [span], i) {
        CoversOneMore(spans, span, i);
      }
    } else {
      MergeStretch(m, spans, span);
    }
  }

  /** A record payload that is one fragment of m. */
  lemma AddFragmentOf(m: Message, spans: seq<Span>, span: Span)
    requires InBody(m, span) && |m.body| <= MAX_BODY
    ensures Add(After(m, spans), FragmentBytes(m, span)) == Step(After(m, spans + [span]), None)
  {
    hide AddPiece, After, ParsePiece;
    ParseFragment(m, span);
    FeedOne(m, spans, span);
    var d := FragmentBytes(m, span);
    assert d[HANDSHAKE_HEADER + |PieceOf(m, span).data|..] == [];
  }

  /** Fragments of m given to add one after the other; an error ends it. */
  ghost function AddFragments(r: Reassembly, m: Message, spans: seq<Span>): Option<Reassembly>
    requires Shaped(r) && forall i :: 0 <= i < |spans| ==> InBody(m, spans[i])
    decreases |spans|
  {
    if spans == [] then Some(r)
    else
      var step := Add(r, FragmentBytes(m, spans[0]));
      if step.error.Some? then None else AddFragments(step.state, m, spans[1..])
  }

  /** Any fragments of m, in any order and with any overlap or repetition, are all taken
      and leave what they cover. */
  lemma {:induction false} FragmentsAdd(m: Message, done: seq<Span>, spans: seq<Span>)
    requires |m.body| <= MAX_BODY && forall i :: 0 <= i < |spans| ==> InBody(m, spans[i])
    ensures AddFragments(After(m, done), m, spans) == Some(After(m, done + spans))
    decreases |spans|
  {
    hide After, Add, FragmentBytes;
    if spans == [] {
      assert done + spans == done;
    } else {
      AddFragmentOf(m, done, spans[0]);
      FragmentsAdd(m, done + [spans[0]], spans[1..]);
      assert done + spans == (done + [spans[0]]) + spans[1..];
    }
  }

  /** So add alone, given the fragments of any cut in any order in which each occurs, is
      left with exactly the message, at every length. */
  lemma FragmentsCancel(m: Message, mtu: int, order: seq<nat>)
    requires |m.body| <= MAX_BODY && (|m.body| > 0 ==> FragmentLimit(|m.body|, mtu) > 0)
    requires InRange(order, |Cut(|m.body|, mtu)|)
    requires forall i :: 0 <= i < |Cut(|m.body|, mtu)| ==> i in order
    ensures var spans := Picked(Cut(|m.body|, mtu), order);
            && (forall i :: 0 <= i < |spans| ==> InBody(m, spans[i]))
            && AddFragments(EMPTY, m, spans) == Some(Reassembly(map[], map[m.sequence := m], |m.body|))
  {
    hide AddFragments, Cut;
    var cut := Cut(|m.body|, mtu);
    var spans := Picked(cut, order);
    forall i | 0 <= i < |spans| ensures InBody(m, spans[i]) {
      assert spans[i] in cut;
    }
    FragmentsAdd(m, [], spans);
    PickedCovers(m, mtu, order);
    assert 0 in order;
    assert [] + spans == spans;
  }

  // ---------------------------------------------------------------- whole flights

  /** The buffer a datagram is read into; what does not fit is lost. */
  const READ_BUFFER := 65536

  function ReadInto(datagram: seq<Byte>): (r: seq<Byte>)
    ensures |datagram| <= READ_BUFFER ==> r == datagram
  {
    if |datagram| <= READ_BUFFER then datagram else datagram[..READ_BUFFER]
  }

  /** Datagrams in order of arrival: each is read and parsed as records and the handshake records
      of epoch 0 are added; an error ends it. */
  ghost function Receive(r: Reassembly, datagrams: seq<seq<Byte>>, version: Uint16): Option<Reassembly>
    requires Shaped(r)
    decreases |datagrams|
  {
    if datagrams == [] then Some(r)
    else
      match ParseAll(ReadInto(datagrams[0]), version)
      case Err(_) => None
      case Ok(records) =>
        match AddRecords(r, records)
        case None => None
        case Some(next) => Receive(next, datagrams[1..], version)
  }

  ghost function AddRecords(r: Reassembly, records: seq<Record>): (next: Option<Reassembly>)
    requires Shaped(r)
    ensures next.Some? ==> Shaped(next.value)
    decreases |records|
  {
    if records == [] then Some(r)
    else if records[0].epoch != 0 then AddRecords(r, records[1..])
    else if records[0].contentType == ALERT || records[0].contentType == CCS then None
    else if records[0].contentType != HANDSHAKE then AddRecords(r, records[1..])
    else
      var step := Add(r, records[0].payload);
      if step.error.Some? then None else AddRecords(step.state, records[1..])
  }

  lemma ReceiveOne(m: Message, spans: seq<Span>, span: Span, sequence: nat, version: Uint16, mtu: int, datagram: seq<Byte>)
    requires |m.body| <= MAX_BODY && Carries(m, span, sequence, version, mtu, datagram)
    ensures ParseAll(datagram, version) == Ok([Carrier(m, span, sequence)])
    ensures AddRecords(After(m, spans), [Carrier(m, span, sequence)]) == Some(After(m, spans + [span]))
  {
    hide After, FragmentBytes, Add, Marshal, ParseFirst;
    var record := Carrier(m, span, sequence);
    ParseConcatenated([record], version);
    assert [record][1..] == [];
    assert Concatenated([record], version) == Marshal(record, version).value + [] == datagram;
    AddFragmentOf(m, spans, span);
  }

  ghost predicate InRange(order: seq<nat>, n: nat) {
    forall k :: 0 <= k < |order| ==> order[k] < n
  }

  /** The datagrams at some positions of the flight, in the order of those positions. */
  ghost function Picked<T>(flight: seq<T>, order: seq<nat>): (r: seq<T>)
    requires InRange(order, |flight|)
    ensures |r| == |order|
  {
    seq(|order|, k requires 0 <= k < |order| => flight[order[k]])
  }

  lemma {:induction false} ReceivePicked(m: Message, spans: seq<Span>, done: seq<Span>, first: nat, version: Uint16, mtu: int,
                                         records: seq<seq<Byte>>, order: seq<nat>)
    requires |m.body| <= MAX_BODY && CarriesAll(m, spans, first, version, mtu, records)
    requires InRange(order, |spans|)
    ensures Receive(After(m, done), Picked(records, order), version)
         == if forall k :: 0 <= k < |order| ==> |records[order[k]]| <= READ_BUFFER
            then Some(After(m, done + Picked(spans, order))) else None
    decreases |order|
  {
    hide After, ParseAll, AddRecords, Carries;
    if order == [] {
      assert done + Picked(spans, order) == done;
    } else {
      var i := order[0];
      assert i in order && Carries(m, spans[i], first + i, version, mtu, records[i]);
      if |records[i]| > READ_BUFFER {
        CutOff(m, spans[i], first + i, version, mtu, records[i]);
      } else {
        ReceiveOne(m, done, spans[i], first + i, version, mtu, records[i]);
        var rest := order[1..];
        ReceivePicked(m, spans, done + [spans[i]], first, version, mtu, records, rest);
        AllAfterFirst(records, order);
        assert Picked(records, order)[1..] == Picked(records, rest);
        assert done + Picked(spans, order) == (done + [spans[i]]) + Picked(spans, rest);
      }
    }
  }

  lemma AllAfterFirst(records: seq<seq<Byte>>, order: seq<nat>)
    requires InRange(order, |records|) && order != [] && |records[order[0]]| <= READ_BUFFER
    ensures (forall k :: 0 <= k < |order| ==> |records[order[k]]| <= READ_BUFFER) <==>
            (forall k :: 0 <= k < |order[1..]| ==> |records[order[1..][k]]| <= READ_BUFFER)
  {
    if forall k :: 0 <= k < |order[1..]| ==> |records[order[1..][k]]| <= READ_BUFFER {
      forall k | 0 <= k < |order| ensures |records[order[k]]| <= READ_BUFFER {
        assert k > 0 ==> order[k] == order[1..][k - 1];
      }
    }
  }

  /** A record longer than the buffer is cut off, and what is left does not parse. */
  lemma CutOff(m: Message, span: Span, sequence: nat, version: Uint16, mtu: int, datagram: seq<Byte>)
    requires Carries(m, span, sequence, version, mtu, datagram) && |datagram| > READ_BUFFER
    ensures ParseAll(ReadInto(datagram), version).Err?
  {
    hide BigEndian, FromBigEndian, FragmentBytes;
    var record := Carrier(m, span, sequence);
    var payload := record.payload[..READ_BUFFER - HEADER];
    assert ReadInto(datagram) == DtlsRecords.Header(record, version) + payload;
    HeaderFields(record, version, payload);
  }

  /** The records made from a message for any MTU, received in any order in which every
      one occurs at least once, leave exactly that message, complete, alone and charged
      for once: if and only if the longest record fits the buffer it is read into. */
  lemma FragmentsReassemble(message: seq<Byte>, mtu: int, first: nat, version: Uint16, records: seq<seq<Byte>>, order: seq<nat>)
    requires WellFormedMessage(message)
    requires var m := MessageOf(message);
             && (|m.body| > 0 ==> FragmentLimit(|m.body|, mtu) > 0)
             && CarriesAll(m, Cut(|m.body|, mtu), first, version, mtu, records)
    requires InRange(order, |records|)
    requires forall i :: 0 <= i < |records| ==> i in order
    ensures var m := MessageOf(message);
            Receive(EMPTY, Picked(records, order), version)
              == if HEADER + HANDSHAKE_HEADER + Longest(|m.body|, mtu) <= READ_BUFFER
                 then Some(Reassembly(map[], map[m.sequence := m], |m.body|)) else None
  {
    hide BigEndian, FromBigEndian, Carries, Receive, Cut, Longest;
    var m := MessageOf(message);
    var spans := Cut(|m.body|, mtu);
    CopiedHeader(message);
    ReceivePicked(m, spans, [], first, version, mtu, records, order);
    LongestRecord(m, mtu, first, version, records);
    assert 0 in order;
    PickedCovers(m, mtu, order);
    assert [] + Picked(spans, order) == Picked(spans, order);
    if HEADER + HANDSHAKE_HEADER + Longest(|m.body|, mtu) > READ_BUFFER {
      var j :| 0 <= j < |order| && order[j] == 0;
      assert |records[order[j]]| > READ_BUFFER;
    }
  }

  /** With an MTU of at most the buffer's size nothing is ever cut off. */
  lemma SmallMtuFits(total: nat, mtu: int)
    requires FragmentLimit(total, mtu) > 0 && 0 < mtu <= READ_BUFFER
    ensures HEADER + HANDSHAKE_HEADER + Longest(total, mtu) <= READ_BUFFER
  {
  }

  lemma LongestRecord(m: Message, mtu: int, first: nat, version: Uint16, records: seq<seq<Byte>>)
    requires |m.body| > 0 ==> FragmentLimit(|m.body|, mtu) > 0
    requires CarriesAll(m, Cut(|m.body|, mtu), first, version, mtu, records)
    ensures |records[0]| == HEADER + HANDSHAKE_HEADER + Longest(|m.body|, mtu)
    ensures forall i :: 0 <= i < |records| ==> |records[i]| <= HEADER + HANDSHAKE_HEADER + Longest(|m.body|, mtu)
  {
    hide Cut, Longest, FragmentBytes, BigEndian;
    FirstIsLongest(|m.body|, mtu);
    var spans := Cut(|m.body|, mtu);
    forall i | 0 <= i < |records| ensures |records[i]| == HEADER + HANDSHAKE_HEADER + spans[i].length {
      assert Carries(m, spans[i], first + i, version, mtu, records[i]);
    }
    assert forall i :: 0 <= i < |records| ==> spans[i] in spans;
  }

  /** Every stretch was picked, so every byte is covered. */
  lemma PickedCovers(m: Message, mtu: int, order: seq<nat>)
    requires |m.body| > 0 ==> FragmentLimit(|m.body|, mtu) > 0
    requires InRange(order, |Cut(|m.body|, mtu)|)
    requires forall i :: 0 <= i < |Cut(|m.body|, mtu)| ==> i in order
    ensures CoversAll(m, Picked(Cut(|m.body|, mtu), order))
  {
    var spans := Cut(|m.body|, mtu);
    var picked := Picked(spans, order);
    forall i | 0 <= i < |m.body| ensures Covers(picked, i) {
      CutCovers(|m.body|, mtu, i);
      var s :| s in spans && s.offset <= i < s.offset + s.length;
      var k :| 0 <= k < |spans| && spans[k] == s;
      assert k in order;
      var j :| 0 <= j < |order| && order[j] == k;
      assert picked[j] == s;
    }
  }

  /** Without an MTU a body of 65512 bytes makes one record of 65537, which encodes and is
      not received. */
  lemma CutOffExample(version: Uint16)
    ensures var m := Message(1, 0, Zeros(65512));
            var record := Marshal(Carrier(m, Span(0, 65512), 0), version);
            && WellFormedMessage(MarshalMessage(m)) && MessageOf(MarshalMessage(m)) == m
            && FragmentLimit(65512, 0) > 0 && Cut(65512, 0) == [Span(0, 65512)]
            && record.Ok? && Receive(EMPTY, [record.value], version) == None
  {
    hide Receive, FragmentBytes, MarshalMessage, WellFormedMessage, MessageOf, Marshal, Zeros;
    var m, whole := Message(1, 0, Zeros(65512)), Span(0, 65512);
    MessageRoundTrip(m);
    assert Cut(65512, 0) == [whole] by {
      assert CutFrom(65512, 65512, 65512) == [];
    }
    var record := Marshal(Carrier(m, whole, 0), version);
    var records := [record.value];
    assert Carries(m, whole, 0, version, 0, records[0]);
    assert CarriesAll(m, [whole], 0, version, 0, records);
    FragmentsReassemble(MarshalMessage(m), 0, 0, version, records, [0]);
    assert Picked(records, [0]) == records;
  }

  /** Sent, received in any order, and taken: the receiver gets the message itself, and its
      reassembler is as empty as before. */
  lemma FragmentsDeliver(message: seq<Byte>, mtu: int, first: nat, version: Uint16, records: seq<seq<Byte>>, order: seq<nat>)
    requires WellFormedMessage(message)
    requires var m := MessageOf(message);
             && (|m.body| > 0 ==> FragmentLimit(|m.body|, mtu) > 0)
             && CarriesAll(m, Cut(|m.body|, mtu), first, version, mtu, records)
             && HEADER + HANDSHAKE_HEADER + Longest(|m.body|, mtu) <= READ_BUFFER
    requires InRange(order, |records|)
    requires forall i :: 0 <= i < |records| ==> i in order
    ensures var received := Receive(EMPTY, Picked(records, order), version);
            received.Some? && Take(received.value, MessageOf(message).sequence) == (EMPTY, Some(MessageOf(message)))
  {
    hide Receive, CarriesAll, FromBigEndian;
    var m := MessageOf(message);
    FragmentsReassemble(message, mtu, first, version, records, order);
    var held := Reassembly(map[], map[m.sequence := m], |m.body|);
    TakeExact(held, m.sequence);
    assert held.messages - {m.sequence} == map[];
  }
}
