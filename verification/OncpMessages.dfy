/** KMP messages over oNCP records, nc_oncp.go: records are cut without regard to the
    messages in them, and readKMP puts the messages together again. */
module OncpMessages {
  import opened Bytes

  const KMP_HEADER := 20
  const KMP_DATA := 300
  const HEAD: seq<Byte> := [0, 0, 0, 0, 0, 0]
  const TAIL: seq<Byte> := [1, 0, 0, 0, 0, 0, 0, 0, 0, 0]
  const LEGACY_TAIL: seq<Byte> := [0, 0, 0, 0, 0, 0, 0, 0, 0, 0]

  /** A message; legacy data messages carry a zero where the others carry a one. */
  datatype Kmp = Kmp(messageType: Uint16, payload: seq<Byte>, legacy: bool)

  datatype ReadError = EndOfStream | Terminated(reason: Byte) | BadHeader

  /** What is left of the byte stream, and what has been read of it and not used. */
  datatype Connection = Connection(stream: seq<Byte>, pending: seq<Byte>)

  predicate WellFormed(m: Kmp) {
    |m.payload| < 65536 && (m.legacy ==> m.messageType == KMP_DATA)
  }

  /** An incoming message on the wire. */
  function KmpBytes(m: Kmp): (r: seq<Byte>)
    ensures |r| == KMP_HEADER + |m.payload|
  {
    HEAD + BigEndian(m.messageType, 2) + (if m.legacy then LEGACY_TAIL else TAIL) + BigEndian(|m.payload|, 2) + m.payload
  }

  datatype Header = Header(messageType: Uint16, payloadLength: Uint16)

  /** parseNCONCPKMPHeader for incoming messages. */
  function ParseHeader(header: seq<Byte>): Result<Header, ReadError> {
    if |header| < KMP_HEADER || header[..6] != HEAD then Err(BadHeader)
    else
      var messageType := FromBigEndian(header[6..8]);
      BigEndianBound(header[6..8]);
      BigEndianBound(header[18..20]);
      assert Radix(2) == 65536;
      if header[8..18] != TAIL && !(messageType == KMP_DATA && header[8] == 0 && header[9..18] == TAIL[1..])
      then Err(BadHeader)
      else Ok(Header(messageType, FromBigEndian(header[18..20])))
  }

  /** Little-endian length field of a record. */
  function LengthField(n: Uint16): (r: seq<Byte>)
    ensures |r| == 2
  {
    [n % 256, n / 256]
  }

  function FieldLength(b0: Byte, b1: Byte): nat {
    var high: int := b1;
    256 * high + b0
  }

  datatype RecordRead = RecordRead(stream: seq<Byte>, record: seq<Byte>)

  /** readRecordBuffer: a length of zero announces the end of the session. */
  function ReadRecord(stream: seq<Byte>): (r: Result<RecordRead, ReadError>)
    ensures r.Ok? ==> r.value.record != [] && |r.value.stream| < |stream|
  {
    if |stream| < 2 then Err(EndOfStream)
    else
      var length := FieldLength(stream[0], stream[1]);
      if length == 0 then
        if |stream| < 3 then Err(EndOfStream) else Err(Terminated(stream[2]))
      else if |stream| < 2 + length then Err(EndOfStream)
      else Ok(RecordRead(stream[2 + length..], stream[2..2 + length]))
  }

  /** Reads records until n bytes are pending. */
  function Fill(c: Connection, n: nat): (r: Result<Connection, ReadError>)
    ensures r.Ok? ==> |r.value.pending| >= n
    decreases |c.stream|
  {
    if |c.pending| >= n then Ok(c)
    else
      match ReadRecord(c.stream)
      case Err(e) => Err(e)
      case Ok(read) => Fill(Connection(read.stream, c.pending + read.record), n)
  }

  datatype KmpRead = KmpRead(connection: Connection, messageType: Uint16, payload: seq<Byte>)

  /** readKMP. */
  function ReadKmp(c: Connection): Result<KmpRead, ReadError> {
    match Fill(c, KMP_HEADER)
    case Err(e) => Err(e)
    case Ok(filled) =>
      match ParseHeader(filled.pending[..KMP_HEADER])
      case Err(e) => Err(e)
      case Ok(header) =>
        var total := KMP_HEADER + header.payloadLength;
        match Fill(filled, total)
        case Err(e) => Err(e)
        case Ok(full) =>
          Ok(KmpRead(full.(pending := full.pending[total..]), header.messageType, full.pending[KMP_HEADER..total]))
  }

  /** The connection as the code holds it. */
  class OncpConnection {
    var stream: seq<Byte>
    var pending: seq<Byte>

    function View(): Connection
      reads this
    {
      Connection(stream, pending)
    }

    constructor (stream: seq<Byte>)
      ensures View() == Connection(stream, [])
    {
      this.stream, pending := stream, [];
    }

    /** The two reading loops of readKMP. */
    method FillPending(n: nat) returns (error: Option<ReadError>)
      modifies this
      ensures match Fill(old(View()), n)
              case Ok(c) => error == None && View() == c
              case Err(e) => error == Some(e)
    {
      while |pending| < n
        invariant Fill(View(), n) == Fill(old(View()), n)
        decreases |stream|
      {
        var read := ReadRecord(stream);
        if read.Err? {
          return Some(read.error);
        }
        stream := read.value.stream;
        pending := pending + read.value.record;
      }
      return None;
    }

    /** On any error what was pending is given up. */
    method ReadMessage() returns (r: Result<(Uint16, seq<Byte>), ReadError>)
      modifies this
      ensures match ReadKmp(old(View()))
              case Ok(read) => r == Ok((read.messageType, read.payload)) && View() == read.connection
              case Err(e) => r == Err(e) && pending == []
    {
      var error := FillPending(KMP_HEADER);
      if error.Some? {
        pending := [];
        return Err(error.value);
      }
      var header := ParseHeader(pending[..KMP_HEADER]);
      if header.Err? {
        pending := [];
        return Err(header.error);
      }
      var total := KMP_HEADER + header.value.payloadLength;
      error := FillPending(total);
      if error.Some? {
        pending := [];
        return Err(error.value);
      }
      r := Ok((header.value.messageType, pending[KMP_HEADER..total]));
      pending := pending[total..];
    }
  }

  // ---------------------------------------------------------------- segmentation

  lemma HeaderReads(m: Kmp, rest: seq<Byte>)
    requires WellFormed(m)
    ensures ParseHeader((KmpBytes(m) + rest)[..KMP_HEADER]) == Ok(Header(m.messageType, |m.payload|))
  {
    hide BigEndian, FromBigEndian;
    assert Radix(2) == 65536;
    BigEndianRoundTrip(m.messageType, 2);
    BigEndianRoundTrip(|m.payload|, 2);
    var tail := if m.legacy then LEGACY_TAIL else TAIL;
    var h := HEAD + BigEndian(m.messageType, 2) + tail + BigEndian(|m.payload|, 2);
    assert (KmpBytes(m) + rest)[..KMP_HEADER] == h;
    assert h[..6] == HEAD && h[6..8] == BigEndian(m.messageType, 2);
    assert h[8..18] == tail && h[18..20] == BigEndian(|m.payload|, 2);
    assert h[9..18] == tail[1..] == TAIL[1..] && h[8] == tail[0];
  }

  ghost predicate GoodCut(records: seq<seq<Byte>>) {
    forall r :: r in records ==> 0 < |r| < 65536
  }

  ghost function Joined(records: seq<seq<Byte>>): seq<Byte> {
    if records == [] then [] else records[0] + Joined(records[1..])
  }

  /** The records as they are sent. */
  ghost function Sent(records: seq<seq<Byte>>): seq<Byte>
    requires GoodCut(records)
  {
    if records == [] then [] else LengthField(|records[0]|) + records[0] + Sent(records[1..])
  }

  ghost function Messages(messages: seq<Kmp>): seq<Byte> {
    if messages == [] then [] else KmpBytes(messages[0]) + Messages(messages[1..])
  }

  lemma RecordReads(record: seq<Byte>, rest: seq<Byte>)
    requires 0 < |record| < 65536
    ensures ReadRecord(LengthField(|record|) + record + rest) == Ok(RecordRead(rest, record))
  {
    var stream := LengthField(|record|) + record + rest;
    assert stream[0] == |record| % 256 && stream[1] == |record| / 256;
    assert FieldLength(stream[0], stream[1]) == |record|;
    assert stream[2..2 + |record|] == record && stream[2 + |record|..] == rest;
  }

  /** Filling reads some of the records, in order, and keeps every byte of them. */
  lemma {:induction false} FillReads(records: seq<seq<Byte>>, pending: seq<Byte>, after: seq<Byte>, n: nat)
    returns (k: nat)
    requires GoodCut(records) && |pending| + |Joined(records)| >= n
    ensures k <= |records| && GoodCut(records[k..])
    ensures Fill(Connection(Sent(records) + after, pending), n)
         == Ok(Connection(Sent(records[k..]) + after, pending + Joined(records[..k])))
    ensures pending + Joined(records) == (pending + Joined(records[..k])) + Joined(records[k..])
    decreases |records|
  {
    hide ReadRecord, LengthField;
    if |pending| >= n {
      k := 0;
      assert records[0..] == records && pending + [] == pending;
    } else {
      var first, rest := records[0], records[1..];
      assert first in records && forall r :: r in rest ==> r in records;
      assert Sent(records) + after == LengthField(|first|) + first + (Sent(rest) + after);
      RecordReads(first, Sent(rest) + after);
      var j := FillReads(rest, pending + first, after, n);
      k := j + 1;
      assert records[k..] == rest[j..];
      JoinedNext(records, j, pending);
    }
  }

  lemma JoinedNext(records: seq<seq<Byte>>, j: nat, pending: seq<Byte>)
    requires records != [] && j < |records|
    ensures pending + Joined(records[..j + 1]) == (pending + records[0]) + Joined(records[1..][..j])
    ensures pending + Joined(records) == (pending + records[0]) + Joined(records[1..])
  {
    hide Joined;
    var front := records[..j + 1];
    assert front[1..] == records[1..][..j] && front[0] == records[0];
    JoinedFirst(front, pending);
    JoinedFirst(records, pending);
  }

  lemma JoinedFirst(records: seq<seq<Byte>>, pending: seq<Byte>)
    requires records != []
    ensures pending + Joined(records) == (pending + records[0]) + Joined(records[1..])
  {
  }

  /** Pending bytes and records to come together are the messages to come. */
  ghost predicate Holds(c: Connection, records: seq<seq<Byte>>, after: seq<Byte>, messages: seq<Kmp>) {
    && GoodCut(records)
    && c.stream == Sent(records) + after
    && c.pending + Joined(records) == Messages(messages)
  }

  /** One call returns the next message, and leaves exactly the unread remainder of the
      records it consumed pending. */
  lemma ReadNext(c: Connection, records: seq<seq<Byte>>, after: seq<Byte>, messages: seq<Kmp>) returns (k: nat)
    requires messages != [] && WellFormed(messages[0]) && Holds(c, records, after, messages)
    ensures k <= |records|
    ensures var m := messages[0];
            && ReadKmp(c).Ok?
            && var read := ReadKmp(c).value;
               && read.messageType == m.messageType && read.payload == m.payload
               && Holds(read.connection, records[k..], after, messages[1..])
               && KmpBytes(m) + read.connection.pending == c.pending + Joined(records[..k])
  {
    hide KmpBytes, ParseHeader, Fill, Sent, Joined;
    var m, rest := messages[0], Messages(messages[1..]);
    var total := KMP_HEADER + |m.payload|;
    var i := FillReads(records, c.pending, after, KMP_HEADER);
    var filled := Fill(c, KMP_HEADER).value;
    Prefix(filled.pending, Joined(records[i..]), KmpBytes(m), rest, KMP_HEADER);
    HeaderReads(m, rest);
    var j := FillReads(records[i..], filled.pending, after, total);
    k := i + j;
    assert records[i..][j..] == records[k..];
    JoinedSplit(records, i, j);
    var full := Fill(filled, total).value;
    var later := Joined(records[k..]);
    assert full.pending + later == KmpBytes(m) + rest;
    assert c.pending + Joined(records[..k]) == full.pending;
    SplitAt(full.pending, later, KmpBytes(m), rest);
    MessagePayload(m);
  }

  lemma MessagePayload(m: Kmp)
    ensures KmpBytes(m)[KMP_HEADER..] == m.payload
  {
  }

  lemma Prefix(a: seq<Byte>, b: seq<Byte>, x: seq<Byte>, y: seq<Byte>, n: nat)
    requires a + b == x + y && n <= |a|
    ensures a[..n] == (x + y)[..n]
  {
    assert a[..n] == (a + b)[..n];
  }

  lemma SplitAt(a: seq<Byte>, b: seq<Byte>, x: seq<Byte>, y: seq<Byte>)
    requires a + b == x + y && |x| <= |a|
    ensures a[..|x|] == x && a[|x|..] + b == y && x + a[|x|..] == a
  {
    assert a[..|x|] == (a + b)[..|x|] == x;
    assert a[|x|..] + b == (a + b)[|x|..] == y;
  }

  lemma {:induction false} JoinedSplit(records: seq<seq<Byte>>, i: nat, j: nat)
    requires i + j <= |records|
    ensures Joined(records[..i + j]) == Joined(records[..i]) + Joined(records[i..][..j])
    decreases i
  {
    if i == 0 {
      assert records[0..] == records && [] + Joined(records[..j]) == Joined(records[..j]);
    } else {
      var first, rest := records[0], records[1..];
      JoinedSplit(rest, i - 1, j);
      assert records[..i + j][1..] == rest[..i - 1 + j] && records[..i][1..] == rest[..i - 1];
      assert records[i..] == rest[i - 1..];
      assert first + (Joined(rest[..i - 1]) + Joined(rest[i - 1..][..j]))
          == (first + Joined(rest[..i - 1])) + Joined(rest[i - 1..][..j]);
    }
  }

  /** n calls of readKMP: the types and payloads they return. */
  ghost function ReadMany(c: Connection, n: nat): Result<seq<(Uint16, seq<Byte>)>, ReadError>
    decreases n
  {
    if n == 0 then Ok([])
    else
      match ReadKmp(c)
      case Err(e) => Err(e)
      case Ok(read) =>
        match ReadMany(read.connection, n - 1)
        case Err(e) => Err(e)
        case Ok(rest) => Ok([(read.messageType, read.payload)] + rest)
  }

  ghost function Contents(messages: seq<Kmp>): seq<(Uint16, seq<Byte>)> {
    if messages == [] then [] else [(messages[0].messageType, messages[0].payload)] + Contents(messages[1..])
  }

  lemma {:induction false} ReadAll(c: Connection, records: seq<seq<Byte>>, after: seq<Byte>, messages: seq<Kmp>)
    requires (forall m :: m in messages ==> WellFormed(m)) && Holds(c, records, after, messages)
    ensures ReadMany(c, |messages|) == Ok(Contents(messages))
    decreases |messages|
  {
    hide ReadKmp, Holds;
    if messages != [] {
      var k := ReadNext(c, records, after, messages);
      ReadAll(ReadKmp(c).value.connection, records[k..], after, messages[1..]);
    }
  }

  /** However the messages are cut into non-empty records, and whatever follows them, the
      calls return exactly their types and payloads in order. */
  lemma SegmentationIndependent(messages: seq<Kmp>, records: seq<seq<Byte>>, after: seq<Byte>)
    requires (forall m :: m in messages ==> WellFormed(m)) && GoodCut(records) && Joined(records) == Messages(messages)
    ensures ReadMany(Connection(Sent(records) + after, []), |messages|) == Ok(Contents(messages))
  {
    hide Sent, Joined, Messages;
    assert [] + Joined(records) == Joined(records);
    ReadAll(Connection(Sent(records) + after, []), records, after, messages);
  }

  // ---------------------------------------------------------------- what is refused

  /** A header is read if and only if it is six zeros, the type, the ten constant bytes, or
      ten zeros for data messages of type 300, and the length; anything else is bad. */
  lemma HeaderExactly(header: seq<Byte>, messageType: Uint16, length: Uint16)
    ensures ParseHeader(header) == Ok(Header(messageType, length)) <==>
              |header| >= 20 && (header[..20] == HeaderBytes(messageType, false, length) ||
                                 (messageType == 300 && header[..20] == HeaderBytes(messageType, true, length)))
    ensures ParseHeader(header).Err? ==> ParseHeader(header).error == BadHeader
  {
    if ParseHeader(header) == Ok(Header(messageType, length)) {
      HeaderParsed(header, messageType, length);
    }
    if |header| >= 20 && header[..20] == HeaderBytes(messageType, false, length) {
      HeaderBytesParse(header, messageType, false, length);
    } else if |header| >= 20 && messageType == 300 && header[..20] == HeaderBytes(messageType, true, length) {
      HeaderBytesParse(header, messageType, true, length);
    }
  }

  function HeaderBytes(messageType: Uint16, legacy: bool, length: Uint16): (r: seq<Byte>)
    ensures |r| == 20
  {
    [0, 0, 0, 0, 0, 0] + BigEndian(messageType, 2) + [if legacy then 0 else 1, 0, 0, 0, 0, 0, 0, 0, 0, 0] + BigEndian(length, 2)
  }

  lemma HeaderParsed(header: seq<Byte>, messageType: Uint16, length: Uint16)
    requires ParseHeader(header) == Ok(Header(messageType, length))
    ensures |header| >= 20 && (header[..20] == HeaderBytes(messageType, false, length) ||
                               (messageType == 300 && header[..20] == HeaderBytes(messageType, true, length)))
  {
    hide BigEndian, FromBigEndian;
    FromBigEndianRoundTrip(header[6..8]);
    FromBigEndianRoundTrip(header[18..20]);
    assert header[..20] == header[..6] + header[6..8] + header[8..18] + header[18..20];
    assert header[8..18] == [header[8]] + header[9..18];
    assert TAIL[1..] == [0, 0, 0, 0, 0, 0, 0, 0, 0];
    assert header[8..18] == TAIL ==> header[..20] == HeaderBytes(messageType, false, length);
    assert header[8] == 0 && header[9..18] == TAIL[1..] ==> header[..20] == HeaderBytes(messageType, true, length);
  }

  lemma HeaderBytesParse(header: seq<Byte>, messageType: Uint16, legacy: bool, length: Uint16)
    requires |header| >= 20 && header[..20] == HeaderBytes(messageType, legacy, length) && (legacy ==> messageType == 300)
    ensures ParseHeader(header) == Ok(Header(messageType, length))
  {
    hide BigEndian, FromBigEndian;
    assert Radix(2) == 65536;
    BigEndianRoundTrip(messageType, 2);
    BigEndianRoundTrip(length, 2);
    var h := HeaderBytes(messageType, legacy, length);
    assert h[..6] == HEAD && h[6..8] == BigEndian(messageType, 2) && h[18..20] == BigEndian(length, 2);
    assert h[9..18] == TAIL[1..] && h[8] == (if legacy then 0 else 1) && (!legacy ==> h[8..18] == TAIL);
    assert header[..20][..6] == header[..6] && header[..20][6..8] == header[6..8] && header[..20][8..18] == header[8..18];
    assert header[..20][9..18] == header[9..18] && header[..20][18..20] == header[18..20] && header[..20][8] == header[8];
  }

  /** A record is read if and only if its length, low byte first and not zero, and that many
      bytes stand there; two zeros and a reason end the session; otherwise the stream ended. */
  lemma RecordExactly(stream: seq<Byte>, record: seq<Byte>, rest: seq<Byte>)
    ensures ReadRecord(stream) == Ok(RecordRead(rest, record)) <==>
              0 < |record| < 65536 && stream == [|record| % 256, |record| / 256] + record + rest
    ensures ReadRecord(stream).Err? ==>
              ReadRecord(stream).error
                == if |stream| >= 3 && stream[0] == 0 && stream[1] == 0 then Terminated(stream[2]) else EndOfStream
    ensures |stream| >= 2 && stream[0] == 0 && stream[1] == 0 ==> ReadRecord(stream).Err?
  {
    if 0 < |record| < 65536 && stream == [|record| % 256, |record| / 256] + record + rest {
      RecordReads(record, rest);
    }
    if ReadRecord(stream) == Ok(RecordRead(rest, record)) {
      assert stream == stream[..2] + record + rest;
      var high: int := stream[1];
      assert |record| == 256 * high + stream[0];
      assert stream[..2] == [stream[0], stream[1]];
    }
  }

  lemma {:induction false} FillFails(records: seq<seq<Byte>>, pending: seq<Byte>, after: seq<Byte>, n: nat)
    requires GoodCut(records) && |pending| + |Joined(records)| < n && ReadRecord(after).Err?
    ensures Fill(Connection(Sent(records) + after, pending), n) == Err(ReadRecord(after).error)
    decreases |records|
  {
    hide ReadRecord, LengthField;
    if records == [] {
      assert [] + after == after;
    } else {
      var first, rest := records[0], records[1..];
      assert first in records && forall r :: r in rest ==> r in records;
      assert Sent(records) + after == LengthField(|first|) + first + (Sent(rest) + after);
      RecordReads(first, Sent(rest) + after);
      FillFails(rest, pending + first, after, n);
    }
  }

  /** A message of which only a front part came before the stream ended, or the session was
      terminated, is reported as that, wherever it stops and however it was cut. */
  lemma CutMessageFails(c: Connection, records: seq<seq<Byte>>, after: seq<Byte>, m: Kmp)
    requires WellFormed(m) && GoodCut(records) && c.stream == Sent(records) + after
    requires c.pending + Joined(records) < KmpBytes(m) && ReadRecord(after).Err?
    ensures ReadKmp(c) == Err(ReadRecord(after).error)
  {
    hide ReadRecord, KmpBytes, ParseHeader, Fill, Sent, Joined;
    var have, total := c.pending + Joined(records), KMP_HEADER + |m.payload|;
    if |have| < KMP_HEADER {
      FillFails(records, c.pending, after, KMP_HEADER);
    } else {
      var i := FillReads(records, c.pending, after, KMP_HEADER);
      var filled := Fill(c, KMP_HEADER).value;
      assert filled.pending[..KMP_HEADER] == have[..KMP_HEADER] == KmpBytes(m)[..KMP_HEADER];
      assert KmpBytes(m) + [] == KmpBytes(m);
      HeaderReads(m, []);
      FillFails(records[i..], filled.pending, after, total);
    }
  }
}
