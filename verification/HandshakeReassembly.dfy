/** certificateDTLSHandshakeReassembler: partial messages, completed messages and the
    memory charged for both. */
module HandshakeReassembly {
  import opened Bytes
  import opened HandshakeFragments

  const MAX_MESSAGES := 64
  const MAX_BYTES := 33554432
  const MAX_TOTAL := 16777216
  const SEQUENCES := 65536

  /** A message some bytes of which have arrived. */
  datatype Partial = Partial(messageType: Byte, totalLength: nat, body: seq<Byte>, received: seq<bool>)

  datatype Reassembly = Reassembly(fragments: map<Uint16, Partial>, messages: map<Uint16, Message>, bytes: int)

  const EMPTY := Reassembly(map[], map[], 0)

  /** A parsed fragment. */
  datatype Piece = Piece(messageType: Byte, totalLength: nat, sequence: Uint16, offset: nat, data: seq<Byte>)

  datatype ReassemblyError =
    | ShortFragment | InvalidFragment | ConflictsCompleted | TooManyMessages | MemoryExceeded
    | ConflictsFragments | OverlapDiffers

  datatype Step = Step(state: Reassembly, error: Option<ReassemblyError>)

  // ---------------------------------------------------------------- one fragment

  predicate Fits(p: Piece) {
    p.offset + |p.data| <= p.totalLength
  }

  function ParsePiece(payload: seq<Byte>): (r: Result<Piece, ReassemblyError>)
    ensures r.Ok? ==> Fits(r.value) && HANDSHAKE_HEADER + |r.value.data| <= |payload|
  {
    if |payload| < HANDSHAKE_HEADER then Err(ShortFragment)
    else
      var totalLength := FromBigEndian(payload[1..4]);
      var offset := FromBigEndian(payload[6..9]);
      var length := FromBigEndian(payload[9..12]);
      if totalLength > MAX_TOTAL || offset > totalLength || length > totalLength - offset ||
         |payload| < HANDSHAKE_HEADER + length then Err(InvalidFragment)
      else
        BigEndianBound(payload[4..6]);
        assert Radix(2) == 65536;
        Ok(Piece(payload[0], totalLength, FromBigEndian(payload[4..6]), offset,
                 payload[HANDSHAKE_HEADER..HANDSHAKE_HEADER + length]))
  }

  predicate ShapedPartial(f: Partial) {
    |f.body| == f.totalLength && |f.received| == f.totalLength
  }

  predicate Shaped(r: Reassembly) {
    forall k :: k in r.fragments ==> ShapedPartial(r.fragments[k])
  }

  function Zeros(n: nat): (r: seq<Byte>)
    ensures |r| == n && forall i :: 0 <= i < n ==> r[i] == 0
  {
    seq(n, _ => 0)
  }

  function Flags(n: nat, value: bool): (r: seq<bool>)
    ensures |r| == n && forall i :: 0 <= i < n ==> r[i] == value
  {
    seq(n, _ => value)
  }

  function NewPartial(p: Piece): (f: Partial)
    ensures ShapedPartial(f) && f.totalLength == p.totalLength
  {
    Partial(p.messageType, p.totalLength, Zeros(p.totalLength), Flags(p.totalLength, false))
  }

  /** How many leading bytes of data agree with what has been received. */
  function Agreeing(f: Partial, offset: nat, data: seq<Byte>): (k: nat)
    requires ShapedPartial(f) && offset + |data| <= f.totalLength
    ensures k <= |data|
    decreases |data|
  {
    if data == [] || (f.received[offset] && f.body[offset] != data[0]) then 0
    else 1 + Agreeing(f, offset + 1, data[1..])
  }

  function Write(f: Partial, offset: nat, data: seq<Byte>): (g: Partial)
    requires ShapedPartial(f) && offset + |data| <= f.totalLength
    ensures ShapedPartial(g)
  {
    f.(body := f.body[..offset] + data + f.body[offset + |data|..],
       received := f.received[..offset] + Flags(|data|, true) + f.received[offset + |data|..])
  }

  predicate AllReceived(f: Partial) {
    forall i :: 0 <= i < |f.received| ==> f.received[i]
  }

  /** The bytes are in; the message is complete or stays partial. */
  function Settle(r: Reassembly, p: Piece, f: Partial): Reassembly
    requires p.sequence in r.fragments
  {
    if AllReceived(f) then
      Reassembly(r.fragments - {p.sequence}, r.messages[p.sequence := Message(p.messageType, p.sequence, f.body)],
                 r.bytes - p.totalLength)
    else r.(fragments := r.fragments[p.sequence := f])
  }

  /** A fragment of a message that has a partial entry. */
  function Merge(r: Reassembly, p: Piece): Step
    requires Shaped(r) && Fits(p) && p.sequence in r.fragments
  {
    var f := r.fragments[p.sequence];
    if f.messageType != p.messageType || f.totalLength != p.totalLength then Step(r, Some(ConflictsFragments))
    else
      var k := Agreeing(f, p.offset, p.data);
      if k < |p.data| then
        Step(r.(fragments := r.fragments[p.sequence := Write(f, p.offset, p.data[..k])]), Some(OverlapDiffers))
      else Step(Settle(r, p, Write(f, p.offset, p.data)), None)
  }

  /** One fragment, with every way it can be refused. A refused fragment may already
      have written the bytes before the one that differs. */
  function AddPiece(r: Reassembly, p: Piece): Step
    requires Shaped(r) && Fits(p)
  {
    if p.sequence in r.messages then
      var m := r.messages[p.sequence];
      if m.messageType != p.messageType || |m.body| != p.totalLength ||
         m.body[p.offset..p.offset + |p.data|] != p.data then Step(r, Some(ConflictsCompleted))
      else Step(r, None)
    else if p.sequence in r.fragments then Merge(r, p)
    else if |r.fragments| + |r.messages| >= MAX_MESSAGES then Step(r, Some(TooManyMessages))
    else if 2 * p.totalLength > MAX_BYTES - r.bytes then Step(r, Some(MemoryExceeded))
    else Merge(r.(fragments := r.fragments[p.sequence := NewPartial(p)], bytes := r.bytes + 2 * p.totalLength), p)
  }

  lemma AddPieceShaped(r: Reassembly, p: Piece)
    requires Shaped(r) && Fits(p)
    ensures Shaped(AddPiece(r, p).state)
  {
  }

  /** add: the fragments of one record payload, in order, up to the first error. */
  function Add(r: Reassembly, payload: seq<Byte>): (s: Step)
    requires Shaped(r)
    ensures Shaped(s.state)
    decreases |payload|
  {
    if payload == [] then Step(r, None)
    else
      match ParsePiece(payload)
      case Err(e) => Step(r, Some(e))
      case Ok(p) =>
        AddPieceShaped(r, p);
        var step := AddPiece(r, p);
        if step.error.Some? then step else Add(step.state, payload[HANDSHAKE_HEADER + |p.data|..])
  }

  /** take: hands a completed message out and stops charging for it. */
  function Take(r: Reassembly, sequence: Uint16): (Reassembly, Option<Message>) {
    if sequence !in r.messages then (r, None)
    else
      (r.(messages := r.messages - {sequence}, bytes := r.bytes - |r.messages[sequence].body|),
       Some(r.messages[sequence]))
  }

  // ---------------------------------------------------------------- accounting

  /** What one sequence number is charged for: a partial message twice, once for the
      body and once for the marks; a completed one once. */
  function Charge(r: Reassembly, k: nat): nat
    requires k < SEQUENCES
  {
    (if k in r.fragments then 2 * r.fragments[k].totalLength else 0) +
    (if k in r.messages then |r.messages[k].body| else 0)
  }

  function Charged(r: Reassembly, n: nat): nat
    requires n <= SEQUENCES
  {
    if n == 0 then 0 else Charged(r, n - 1) + Charge(r, n - 1)
  }

  /** Only one number's charge changed. */
  lemma {:induction false} ChargedUpdate(r: Reassembly, r': Reassembly, k: nat, n: nat)
    requires n <= SEQUENCES && k < SEQUENCES
    requires forall j :: 0 <= j < SEQUENCES && j != k ==> Charge(r, j) == Charge(r', j)
    ensures Charged(r', n) == Charged(r, n) + if k < n then Charge(r', k) - Charge(r, k) else 0
  {
    if n > 0 {
      ChargedUpdate(r, r', k, n - 1);
    }
  }

  /** The invariant of every reachable reassembler. */
  ghost predicate Good(r: Reassembly) {
    && Shaped(r)
    && (forall k :: k in r.fragments ==> k !in r.messages)
    && (forall k :: k in r.messages ==> r.messages[k].sequence == k)
    && r.bytes == Charged(r, SEQUENCES) && r.bytes <= MAX_BYTES
    && |r.fragments| + |r.messages| <= MAX_MESSAGES
  }

  lemma {:induction false} NothingCharged(n: nat)
    requires n <= SEQUENCES
    ensures Charged(EMPTY, n) == 0
  {
    if n > 0 {
      NothingCharged(n - 1);
    }
  }

  lemma EmptyGood()
    ensures Good(EMPTY)
  {
    NothingCharged(SEQUENCES);
  }

  /** Another version of a partial message of the same length changes no charge. */
  lemma ReplaceGood(r: Reassembly, k: Uint16, f: Partial)
    requires Good(r) && k in r.fragments && ShapedPartial(f) && f.totalLength == r.fragments[k].totalLength
    ensures Good(r.(fragments := r.fragments[k := f]))
  {
    hide Charged;
    var r' := r.(fragments := r.fragments[k := f]);
    assert r'.fragments.Keys == r.fragments.Keys;
    ChargedUpdate(r, r', k, SEQUENCES);
  }

  lemma CompleteGood(r: Reassembly, p: Piece, f: Partial)
    requires Good(r) && p.sequence in r.fragments && ShapedPartial(f)
    requires f.totalLength == r.fragments[p.sequence].totalLength == p.totalLength && AllReceived(f)
    ensures Good(Settle(r, p, f))
  {
    hide Charged;
    var r' := Settle(r, p, f);
    assert r'.fragments.Keys == r.fragments.Keys - {p.sequence};
    assert r'.messages.Keys == r.messages.Keys + {p.sequence};
    ChargedUpdate(r, r', p.sequence, SEQUENCES);
  }

  /** Opening a partial message charges twice its length. */
  lemma OpenCharge(r: Reassembly, k: Uint16, f: Partial, bytes: int)
    requires k !in r.fragments
    ensures Charged(Reassembly(r.fragments[k := f], r.messages, bytes), SEQUENCES)
         == Charged(r, SEQUENCES) + 2 * f.totalLength
  {
    hide Charged;
    ChargedUpdate(r, Reassembly(r.fragments[k := f], r.messages, bytes), k, SEQUENCES);
  }

  lemma OpenCount(m: map<Uint16, Partial>, k: Uint16, f: Partial)
    requires k !in m
    ensures |m[k := f]| == |m| + 1
  {
    assert m[k := f].Keys == m.Keys + {k};
  }

  lemma OpenGood(r: Reassembly, p: Piece)
    requires Good(r) && p.sequence !in r.fragments && p.sequence !in r.messages
    requires |r.fragments| + |r.messages| < MAX_MESSAGES && 2 * p.totalLength <= MAX_BYTES - r.bytes
    ensures Good(r.(fragments := r.fragments[p.sequence := NewPartial(p)], bytes := r.bytes + 2 * p.totalLength))
  {
    hide Charged, NewPartial;
    OpenCount(r.fragments, p.sequence, NewPartial(p));
    OpenCharge(r, p.sequence, NewPartial(p), r.bytes + 2 * p.totalLength);
  }

  lemma MergeGood(r: Reassembly, p: Piece)
    requires Good(r) && Fits(p) && p.sequence in r.fragments
    ensures Good(Merge(r, p).state)
  {
    hide Good, Write, AllReceived, Charged, Agreeing;
    assert Shaped(r) by {
      GoodShaped(r);
    }
    var f := r.fragments[p.sequence];
    if f.messageType == p.messageType && f.totalLength == p.totalLength {
      var k := Agreeing(f, p.offset, p.data);
      if k < |p.data| {
        WriteLength(f, p.offset, p.data[..k]);
        ReplaceGood(r, p.sequence, Write(f, p.offset, p.data[..k]));
      } else {
        var g := Write(f, p.offset, p.data);
        WriteLength(f, p.offset, p.data);
        if AllReceived(g) {
          CompleteGood(r, p, g);
        } else {
          ReplaceGood(r, p.sequence, g);
        }
      }
    }
  }

  lemma GoodShaped(r: Reassembly)
    requires Good(r)
    ensures Shaped(r)
  {
  }

  lemma WriteLength(f: Partial, offset: nat, data: seq<Byte>)
    requires ShapedPartial(f) && offset + |data| <= f.totalLength
    ensures Write(f, offset, data).totalLength == f.totalLength
  {
  }

  lemma AddPieceGood(r: Reassembly, p: Piece)
    requires Good(r) && Fits(p)
    ensures Good(AddPiece(r, p).state)
  {
    hide Merge, Charged;
    if p.sequence !in r.messages {
      if p.sequence in r.fragments {
        MergeGood(r, p);
      } else if |r.fragments| + |r.messages| < MAX_MESSAGES && 2 * p.totalLength <= MAX_BYTES - r.bytes {
        OpenGood(r, p);
        MergeGood(r.(fragments := r.fragments[p.sequence := NewPartial(p)], bytes := r.bytes + 2 * p.totalLength), p);
      }
    }
  }

  /** For every payload, well formed or not, accepted or refused part-way. */
  lemma {:induction false} AddGood(r: Reassembly, payload: seq<Byte>)
    requires Good(r)
    ensures Good(Add(r, payload).state)
    decreases |payload|
  {
    hide Good, AddPiece, ParsePiece;
    GoodShaped(r);
    if payload != [] && ParsePiece(payload).Ok? {
      var p := ParsePiece(payload).value;
      AddPieceGood(r, p);
      if AddPiece(r, p).error.None? {
        AddGood(AddPiece(r, p).state, payload[HANDSHAKE_HEADER + |p.data|..]);
      }
    }
  }

  lemma TakeGood(r: Reassembly, sequence: Uint16)
    requires Good(r)
    ensures Good(Take(r, sequence).0)
    ensures Take(r, sequence).1.Some? <==> sequence in r.messages
    ensures Take(r, sequence).1.Some? ==> Take(r, sequence).1.value.sequence == sequence
    ensures sequence !in Take(r, sequence).0.messages
  {
    var r' := Take(r, sequence).0;
    if sequence in r.messages {
      assert r'.messages.Keys == r.messages.Keys - {sequence};
      ChargedUpdate(r, r', sequence, SEQUENCES);
    }
  }

  // ---------------------------------------------------------------- received bytes

  /** The byte at position i of message k, once it has arrived. */
  ghost function Known(r: Reassembly, k: Uint16, i: nat): Option<Byte> {
    if k in r.messages then
      if i < |r.messages[k].body| then Some(r.messages[k].body[i]) else None
    else if k in r.fragments && ShapedPartial(r.fragments[k]) && i < r.fragments[k].totalLength && r.fragments[k].received[i]
    then Some(r.fragments[k].body[i])
    else None
  }

  lemma {:induction false} AgreeingBytes(f: Partial, offset: nat, data: seq<Byte>, j: nat)
    requires ShapedPartial(f) && offset + |data| <= f.totalLength
    requires j < Agreeing(f, offset, data)
    ensures f.received[offset + j] ==> f.body[offset + j] == data[j]
    decreases |data|
  {
    if j > 0 {
      AgreeingBytes(f, offset + 1, data[1..], j - 1);
    }
  }

  /** Writing bytes that agree changes nothing already received. */
  lemma WriteKeeps(f: Partial, offset: nat, data: seq<Byte>, k: nat, i: nat)
    requires ShapedPartial(f) && offset + |data| <= f.totalLength && i < f.totalLength
    requires k <= Agreeing(f, offset, data)
    ensures f.received[i] ==> Write(f, offset, data[..k]).received[i] && Write(f, offset, data[..k]).body[i] == f.body[i]
  {
    if offset <= i < offset + k {
      AgreeingBytes(f, offset, data, i - offset);
    }
  }

  lemma MergeKeeps(r: Reassembly, p: Piece, k: Uint16, i: nat)
    requires Good(r) && Fits(p) && p.sequence in r.fragments
    ensures Known(r, k, i).Some? ==> Known(Merge(r, p).state, k, i) == Known(r, k, i)
  {
    hide Charged, Write, Agreeing;
    var f := r.fragments[p.sequence];
    if k == p.sequence && Known(r, k, i).Some? && f.messageType == p.messageType && f.totalLength == p.totalLength {
      var a := Agreeing(f, p.offset, p.data);
      WriteKeeps(f, p.offset, p.data, a, i);
      WriteLength(f, p.offset, p.data[..a]);
      if a == |p.data| {
        assert p.data[..a] == p.data;
      }
    }
  }

  lemma AddPieceKeeps(r: Reassembly, p: Piece, k: Uint16, i: nat)
    requires Good(r) && Fits(p)
    ensures Known(r, k, i).Some? ==> Known(AddPiece(r, p).state, k, i) == Known(r, k, i)
  {
    hide Charged, Merge, Good, NewPartial;
    GoodShaped(r);
    if p.sequence !in r.messages {
      if p.sequence in r.fragments {
        MergeKeeps(r, p, k, i);
      } else if |r.fragments| + |r.messages| < MAX_MESSAGES && 2 * p.totalLength <= MAX_BYTES - r.bytes {
        OpenGood(r, p);
        MergeKeeps(r.(fragments := r.fragments[p.sequence := NewPartial(p)], bytes := r.bytes + 2 * p.totalLength), p, k, i);
      }
    }
  }

  /** A received byte never changes value, whatever arrives later. */
  lemma {:induction false} AddKeeps(r: Reassembly, payload: seq<Byte>, k: Uint16, i: nat)
    requires Good(r) && Known(r, k, i).Some?
    ensures Known(Add(r, payload).state, k, i) == Known(r, k, i)
    decreases |payload|
  {
    hide Good, AddPiece, ParsePiece, Known;
    GoodShaped(r);
    if payload != [] && ParsePiece(payload).Ok? {
      var p := ParsePiece(payload).value;
      AddPieceGood(r, p);
      AddPieceKeeps(r, p, k, i);
      if AddPiece(r, p).error.None? {
        AddKeeps(AddPiece(r, p).state, payload[HANDSHAKE_HEADER + |p.data|..], k, i);
      }
    }
  }

  /** Bytes that were all copied are there. */
  lemma MergeHolds(r: Reassembly, p: Piece, i: nat)
    requires Shaped(r) && Fits(p) && p.sequence in r.fragments && p.sequence !in r.messages && i < |p.data|
    requires Merge(r, p).error.None?
    ensures Known(Merge(r, p).state, p.sequence, p.offset + i) == Some(p.data[i])
  {
    hide Agreeing;
  }

  /** What is accepted is kept: after a fragment taken without error each of its bytes is
      known with its value, whether the message was new, partial or already complete. */
  lemma AcceptedIsKept(r: Reassembly, p: Piece, i: nat)
    requires Good(r) && Fits(p) && i < |p.data| && AddPiece(r, p).error.None?
    ensures Known(AddPiece(r, p).state, p.sequence, p.offset + i) == Some(p.data[i])
  {
    hide Charged, Merge, NewPartial;
    if p.sequence in r.messages {
      assert r.messages[p.sequence].body[p.offset..p.offset + |p.data|][i] == p.data[i];
    } else if p.sequence in r.fragments {
      MergeHolds(r, p, i);
    } else {
      MergeHolds(r.(fragments := r.fragments[p.sequence := NewPartial(p)], bytes := r.bytes + 2 * p.totalLength), p, i);
    }
  }

  /** The fragments of a record payload, up to the first that does not parse. */
  function PiecesOf(payload: seq<Byte>): (pieces: seq<Piece>)
    ensures forall p :: p in pieces ==> Fits(p)
    decreases |payload|
  {
    if payload == [] then []
    else
      match ParsePiece(payload)
      case Err(_) => []
      case Ok(p) => [p] + PiecesOf(payload[HANDSHAKE_HEADER + |p.data|..])
  }

  /** The same for every byte of every fragment of a payload taken without error. */
  lemma {:induction false} AcceptedPayloadIsKept(r: Reassembly, payload: seq<Byte>, k: nat, i: nat)
    requires Good(r) && Add(r, payload).error.None?
    requires k < |PiecesOf(payload)| && i < |PiecesOf(payload)[k].data|
    ensures var p := PiecesOf(payload)[k];
            Known(Add(r, payload).state, p.sequence, p.offset + i) == Some(p.data[i])
    decreases |payload|
  {
    hide Good, AddPiece, ParsePiece, Known;
    GoodShaped(r);
    var p := ParsePiece(payload).value;
    var next, rest := AddPiece(r, p).state, payload[HANDSHAKE_HEADER + |p.data|..];
    AddPieceGood(r, p);
    if k == 0 {
      AcceptedIsKept(r, p, i);
      AddKeeps(next, rest, p.sequence, p.offset + i);
    } else {
      assert PiecesOf(payload)[k] == PiecesOf(rest)[k - 1];
      AcceptedPayloadIsKept(next, rest, k - 1, i);
    }
  }

  /** take hands out exactly the message that was held, and leaves everything else. */
  lemma TakeExact(r: Reassembly, sequence: Uint16)
    ensures var (r', taken) := Take(r, sequence);
            && r'.fragments == r.fragments && r'.messages == r.messages - {sequence}
            && taken == (if sequence in r.messages then Some(r.messages[sequence]) else None)
            && r'.bytes == r.bytes - (if sequence in r.messages then |r.messages[sequence].body| else 0)
  {
    if sequence !in r.messages {
      assert r.messages - {sequence} == r.messages;
    }
  }

  // ---------------------------------------------------------------- as it runs

  /** The byte loop of add: it stops at the first byte that differs. */
  method WriteBytes(f: Partial, offset: nat, data: seq<Byte>) returns (g: Partial, ok: bool)
    requires ShapedPartial(f) && offset + |data| <= f.totalLength
    ensures g == Write(f, offset, data[..Agreeing(f, offset, data)])
    ensures ok == (Agreeing(f, offset, data) == |data|)
  {
    hide Write, Agreeing;
    var body, received := f.body, f.received;
    WriteNothing(f, offset);
    assert data[..0] == [] && data[0..] == data;
    for i := 0 to |data|
      invariant Partial(f.messageType, f.totalLength, body, received) == Write(f, offset, data[..i])
      invariant Agreeing(f, offset, data) == i + Agreeing(f, offset + i, data[i..])
    {
      var position := offset + i;
      WriteNext(f, offset, data, i);
      AgreeingNext(f, offset + i, data[i..]);
      if received[position] && body[position] != data[i] {
        return Partial(f.messageType, f.totalLength, body, received), false;
      }
      assert data[i..][1..] == data[i + 1..];
      body := body[position := data[i]];
      received := received[position := true];
    }
    AgreeingNext(f, offset + |data|, data[|data|..]);
    assert data[..|data|] == data;
    return Partial(f.messageType, f.totalLength, body, received), true;
  }

  lemma WriteNothing(f: Partial, offset: nat)
    requires ShapedPartial(f) && offset <= f.totalLength
    ensures Write(f, offset, []) == f
  {
    assert f.body[..offset] + [] + f.body[offset..] == f.body;
    assert f.received[..offset] + [] + f.received[offset..] == f.received;
  }

  /** One more byte of data is one more element set; its place is untouched before. */
  lemma WriteNext(f: Partial, offset: nat, data: seq<Byte>, i: nat)
    requires ShapedPartial(f) && offset + |data| <= f.totalLength && i < |data|
    ensures var g, h := Write(f, offset, data[..i]), Write(f, offset, data[..i + 1]);
            && g.messageType == f.messageType && g.totalLength == f.totalLength && ShapedPartial(g)
            && g.body[offset + i] == f.body[offset + i] && g.received[offset + i] == f.received[offset + i]
            && h == g.(body := g.body[offset + i := data[i]], received := g.received[offset + i := true])
  {
    var g, h := Write(f, offset, data[..i]), Write(f, offset, data[..i + 1]);
    assert h.body == g.body[offset + i := data[i]];
    assert h.received == g.received[offset + i := true];
  }

  lemma AgreeingNext(f: Partial, offset: nat, data: seq<Byte>)
    requires ShapedPartial(f) && offset + |data| <= f.totalLength
    ensures data == [] ==> Agreeing(f, offset, data) == 0
    ensures data != [] ==>
              Agreeing(f, offset, data) ==
                if f.received[offset] && f.body[offset] != data[0] then 0 else 1 + Agreeing(f, offset + 1, data[1..])
  {
  }

  class Reassembler {
    var fragments: map<Uint16, Partial>
    var messages: map<Uint16, Message>
    var bytes: int

    function State(): Reassembly
      reads this
    {
      Reassembly(fragments, messages, bytes)
    }

    constructor ()
      ensures State() == EMPTY && Good(State())
    {
      fragments, messages, bytes := map[], map[], 0;
      new;
      EmptyGood();
    }

    method AddFragment(p: Piece) returns (error: Option<ReassemblyError>)
      requires Good(State()) && Fits(p)
      modifies this
      ensures Step(State(), error) == AddPiece(old(State()), p)
    {
      hide Charged, Write, Agreeing;
      if p.sequence in messages {
        var m := messages[p.sequence];
        if m.messageType != p.messageType || |m.body| != p.totalLength ||
           m.body[p.offset..p.offset + |p.data|] != p.data {
          return Some(ConflictsCompleted);
        }
        return None;
      }
      if p.sequence !in fragments {
        if |fragments| + |messages| >= MAX_MESSAGES {
          return Some(TooManyMessages);
        }
        if 2 * p.totalLength > MAX_BYTES - bytes {
          return Some(MemoryExceeded);
        }
        fragments := fragments[p.sequence := NewPartial(p)];
        bytes := bytes + 2 * p.totalLength;
      }
      error := MergeFragment(p);
    }

    method MergeFragment(p: Piece) returns (error: Option<ReassemblyError>)
      requires Shaped(State()) && Fits(p) && p.sequence in fragments
      modifies this
      ensures Step(State(), error) == Merge(old(State()), p)
    {
      hide Write, Agreeing;
      var f := fragments[p.sequence];
      if f.messageType != p.messageType || f.totalLength != p.totalLength {
        return Some(ConflictsFragments);
      }
      var g, ok := WriteBytes(f, p.offset, p.data);
      if !ok {
        fragments := fragments[p.sequence := g];
        return Some(OverlapDiffers);
      }
      assert p.data[..|p.data|] == p.data;
      var complete := true;
      for i := 0 to |g.received|
        invariant complete <==> forall j :: 0 <= j < i ==> g.received[j]
      {
        if !g.received[i] {
          complete := false;
          break;
        }
      }
      if complete {
        messages := messages[p.sequence := Message(p.messageType, p.sequence, g.body)];
        fragments := fragments - {p.sequence};
        bytes := bytes - p.totalLength;
      } else {
        fragments := fragments[p.sequence := g];
      }
      return None;
    }

    method AddPayload(payload: seq<Byte>) returns (error: Option<ReassemblyError>)
      requires Good(State())
      modifies this
      ensures Good(State())
      ensures Step(State(), error) == Add(old(State()), payload)
    {
      hide Good, AddPiece;
      GoodShaped(State());
      var rest := payload;
      while |rest| > 0
        invariant Good(State()) && Shaped(State())
        invariant Add(State(), rest) == Add(old(State()), payload)
        decreases |rest|
      {
        var p := ParsePiece(rest);
        if p.Err? {
          return Some(p.error);
        }
        AddPieceGood(State(), p.value);
        error := AddFragment(p.value);
        GoodShaped(State());
        if error.Some? {
          return;
        }
        rest := rest[HANDSHAKE_HEADER + |p.value.data|..];
      }
      return None;
    }

    method TakeMessage(sequence: Uint16) returns (message: Option<Message>)
      requires Good(State())
      modifies this
      ensures Good(State())
      ensures (State(), message) == Take(old(State()), sequence)
    {
      hide Good;
      TakeGood(State(), sequence);
      if sequence !in messages {
        return None;
      }
      message := Some(messages[sequence]);
      messages := messages - {sequence};
      bytes := bytes - |message.value.body|;
    }
  }
}
