/** What one fragment does to a reassembler, in full: which fragments are accepted, which
    error the others give, what becomes known, and when a message is complete. */
module HandshakeOutcomes {
  import opened Bytes
  import opened HandshakeReassembly

  // ---------------------------------------------------------------- reading a fragment

  function PieceBytes(p: Piece): seq<Byte> {
    [p.messageType] + BigEndian(p.totalLength, 3) + BigEndian(p.sequence, 2) + BigEndian(p.offset, 3)
      + BigEndian(|p.data|, 3) + p.data
  }

  /** A payload is read as a fragment if and only if it begins with that fragment's bytes;
      less than a header is reported as short, anything else as invalid. */
  lemma ParseExactly(payload: seq<Byte>, p: Piece)
    ensures ParsePiece(payload) == Ok(p) <==>
              && Fits(p) && p.totalLength < 0x100_0000
              && |payload| >= 12 + |p.data| && payload[..12 + |p.data|] == PieceBytes(p)
    ensures ParsePiece(payload).Err? ==> ParsePiece(payload).error == if |payload| < 12 then ShortFragment else InvalidFragment
  {
    if ParsePiece(payload) == Ok(p) {
      ParsedBytes(payload, p);
    }
    if Fits(p) && p.totalLength < 0x100_0000 && |payload| >= 12 + |p.data| && payload[..12 + |p.data|] == PieceBytes(p) {
      BytesParsed(payload, p);
    }
  }

  lemma ParsedBytes(payload: seq<Byte>, p: Piece)
    requires ParsePiece(payload) == Ok(p)
    ensures p.totalLength < 0x100_0000
    ensures |payload| >= 12 + |p.data| && payload[..12 + |p.data|] == PieceBytes(p)
  {
    hide BigEndian, FromBigEndian;
    assert Radix(3) == 0x100_0000;
    BigEndianBound(payload[1..4]);
    FromBigEndianRoundTrip(payload[1..4]);
    FromBigEndianRoundTrip(payload[4..6]);
    FromBigEndianRoundTrip(payload[6..9]);
    FromBigEndianRoundTrip(payload[9..12]);
    var front := payload[..12 + |p.data|];
    assert front == [payload[0]] + payload[1..4] + payload[4..6] + payload[6..9] + payload[9..12] + payload[12..12 + |p.data|];
  }

  lemma BytesParsed(payload: seq<Byte>, p: Piece)
    requires Fits(p) && p.totalLength < 0x100_0000
    requires |payload| >= 12 + |p.data| && payload[..12 + |p.data|] == PieceBytes(p)
    ensures ParsePiece(payload) == Ok(p)
  {
    hide BigEndian, FromBigEndian;
    assert Radix(2) == 65536 && Radix(3) == 0x100_0000;
    BigEndianRoundTrip(p.totalLength, 3);
    BigEndianRoundTrip(p.sequence, 2);
    BigEndianRoundTrip(p.offset, 3);
    BigEndianRoundTrip(|p.data|, 3);
    var d, n := PieceBytes(p), 12 + |p.data|;
    assert d[1..4] == BigEndian(p.totalLength, 3) && d[4..6] == BigEndian(p.sequence, 2);
    assert d[6..9] == BigEndian(p.offset, 3) && d[9..12] == BigEndian(|p.data|, 3) && d[12..n] == p.data;
    assert payload[..n][0] == payload[0] && payload[..n][1..4] == payload[1..4] && payload[..n][4..6] == payload[4..6];
    assert payload[..n][6..9] == payload[6..9] && payload[..n][9..12] == payload[9..12] && payload[..n][12..n] == payload[12..n];
  }

  // ---------------------------------------------------------------- accepting it

  /** No byte of the fragment contradicts a byte that is known. */
  ghost predicate Consistent(r: Reassembly, p: Piece) {
    forall i :: 0 <= i < |p.data| && Known(r, p.sequence, p.offset + i).Some? ==>
      Known(r, p.sequence, p.offset + i) == Some(p.data[i])
  }

  lemma {:induction false} AgreeingExactly(f: Partial, offset: nat, data: seq<Byte>)
    requires ShapedPartial(f) && offset + |data| <= f.totalLength
    ensures Agreeing(f, offset, data) == |data| <==>
              forall i :: 0 <= i < |data| && f.received[offset + i] ==> f.body[offset + i] == data[i]
    decreases |data|
  {
    if data != [] {
      AgreeingExactly(f, offset + 1, data[1..]);
      if forall i :: 0 <= i < |data[1..]| && f.received[offset + 1 + i] ==> f.body[offset + 1 + i] == data[1..][i] {
        forall i | 0 < i < |data| && f.received[offset + i] ensures f.body[offset + i] == data[i] {
          assert f.received[offset + 1 + (i - 1)] && data[1..][i - 1] == data[i];
        }
      }
      if forall i :: 0 <= i < |data| && f.received[offset + i] ==> f.body[offset + i] == data[i] {
        forall i | 0 <= i < |data[1..]| && f.received[offset + 1 + i] ensures f.body[offset + 1 + i] == data[1..][i] {
          assert f.received[offset + (i + 1)] && data[1..][i] == data[i + 1];
        }
      }
    }
  }

  /** The error a fragment gives, if any, in every case. Up to 64 messages are begun, and as
      long as twice their length fits what is left of 32 MiB. */
  ghost function Expected(r: Reassembly, p: Piece): Option<ReassemblyError> {
    if p.sequence in r.messages then
      var m := r.messages[p.sequence];
      if m.messageType == p.messageType && |m.body| == p.totalLength && Consistent(r, p) then None
      else Some(ConflictsCompleted)
    else if p.sequence in r.fragments then
      var f := r.fragments[p.sequence];
      if f.messageType != p.messageType || f.totalLength != p.totalLength then Some(ConflictsFragments)
      else if Consistent(r, p) then None
      else Some(OverlapDiffers)
    else if |r.fragments| + |r.messages| >= 64 then Some(TooManyMessages)
    else if r.bytes + 2 * p.totalLength > 32 * 1024 * 1024 then Some(MemoryExceeded)
    else None
  }

  lemma MergeExpected(r: Reassembly, p: Piece)
    requires Shaped(r) && Fits(p) && p.sequence in r.fragments && p.sequence !in r.messages
    ensures Merge(r, p).error == Expected(r, p)
  {
    hide Write, Agreeing;
    var f := r.fragments[p.sequence];
    if f.messageType == p.messageType && f.totalLength == p.totalLength {
      AgreeingExactly(f, p.offset, p.data);
    }
  }

  /** A fragment is accepted, or gives its error, exactly as expected; and unless overlapping
      bytes differ a refused one changes nothing. */
  lemma AddExactly(r: Reassembly, p: Piece)
    requires Good(r) && Fits(p)
    ensures AddPiece(r, p).error == Expected(r, p)
    ensures AddPiece(r, p).error.Some? && AddPiece(r, p).error != Some(OverlapDiffers) ==> AddPiece(r, p).state == r
  {
    hide Charged, Merge, NewPartial;
    if p.sequence in r.messages {
      if |r.messages[p.sequence].body| == p.totalLength {
        CompletedCompared(r, p);
      }
    } else if p.sequence in r.fragments {
      MergeExpected(r, p);
      MergeRefused(r, p);
    } else if |r.fragments| + |r.messages| < MAX_MESSAGES && 2 * p.totalLength <= MAX_BYTES - r.bytes {
      NewTaken(r.(fragments := r.fragments[p.sequence := NewPartial(p)], bytes := r.bytes + 2 * p.totalLength), p);
    }
  }

  lemma CompletedCompared(r: Reassembly, p: Piece)
    requires Fits(p) && p.sequence in r.messages && |r.messages[p.sequence].body| == p.totalLength
    ensures Consistent(r, p) <==> r.messages[p.sequence].body[p.offset..p.offset + |p.data|] == p.data
  {
    var there := r.messages[p.sequence].body[p.offset..p.offset + |p.data|];
    assert forall i :: 0 <= i < |p.data| ==> Known(r, p.sequence, p.offset + i) == Some(there[i]);
    if Consistent(r, p) {
      forall i | 0 <= i < |p.data| ensures there[i] == p.data[i] {
        assert Known(r, p.sequence, p.offset + i) == Some(there[i]);
      }
    }
  }

  lemma MergeRefused(r: Reassembly, p: Piece)
    requires Shaped(r) && Fits(p) && p.sequence in r.fragments
    ensures Merge(r, p).error.Some? && Merge(r, p).error != Some(OverlapDiffers) ==> Merge(r, p).state == r
  {
  }

  lemma NewTaken(r: Reassembly, p: Piece)
    requires Shaped(r) && Fits(p) && p.sequence in r.fragments && p.sequence !in r.messages
    requires r.fragments[p.sequence] == NewPartial(p)
    ensures Merge(r, p).error == None
  {
    MergeExpected(r, p);
    assert Consistent(r, p);
  }

  // ---------------------------------------------------------------- what becomes known

  lemma WriteKnows(f: Partial, offset: nat, data: seq<Byte>, i: nat)
    requires ShapedPartial(f) && offset + |data| <= f.totalLength && i < f.totalLength
    ensures var g := Write(f, offset, data);
            && g.received[i] == (f.received[i] || offset <= i < offset + |data|)
            && g.body[i] == (if offset <= i < offset + |data| then data[i - offset] else f.body[i])
            && g.messageType == f.messageType && g.totalLength == f.totalLength
  {
  }

  lemma MergeInvents(r: Reassembly, p: Piece, k: Uint16, i: nat)
    requires Shaped(r) && Fits(p) && p.sequence in r.fragments && p.sequence !in r.messages
    requires Known(Merge(r, p).state, k, i).Some?
    ensures Known(Merge(r, p).state, k, i) == Known(r, k, i) ||
            (k == p.sequence && p.offset <= i < p.offset + |p.data| && Known(Merge(r, p).state, k, i) == Some(p.data[i - p.offset]))
  {
    hide Write, Agreeing;
    var f := r.fragments[p.sequence];
    if k == p.sequence && f.messageType == p.messageType && f.totalLength == p.totalLength {
      var a := Agreeing(f, p.offset, p.data);
      WriteLength(f, p.offset, p.data[..a]);
      WriteLength(f, p.offset, p.data);
      if i < f.totalLength {
        WriteKnows(f, p.offset, p.data[..a], i);
        WriteKnows(f, p.offset, p.data, i);
      }
    }
  }

  /** Nothing is invented: a byte known after a fragment was known before with that value, or
      is the fragment's. */
  lemma NothingInvented(r: Reassembly, p: Piece, k: Uint16, i: nat)
    requires Good(r) && Fits(p) && Known(AddPiece(r, p).state, k, i).Some?
    ensures Known(AddPiece(r, p).state, k, i) == Known(r, k, i) ||
            (k == p.sequence && p.offset <= i < p.offset + |p.data| && Known(AddPiece(r, p).state, k, i) == Some(p.data[i - p.offset]))
  {
    hide Charged, Merge, NewPartial;
    if p.sequence !in r.messages {
      if p.sequence in r.fragments {
        MergeInvents(r, p, k, i);
      } else if |r.fragments| + |r.messages| < MAX_MESSAGES && 2 * p.totalLength <= MAX_BYTES - r.bytes {
        var r' := r.(fragments := r.fragments[p.sequence := NewPartial(p)], bytes := r.bytes + 2 * p.totalLength);
        MergeInvents(r', p, k, i);
        NewKnowsNothing(r, p, k, i);
      }
    }
  }

  lemma NewKnowsNothing(r: Reassembly, p: Piece, k: Uint16, i: nat)
    requires p.sequence !in r.fragments && p.sequence !in r.messages
    ensures Known(r.(fragments := r.fragments[p.sequence := NewPartial(p)], bytes := r.bytes + 2 * p.totalLength), k, i)
         == Known(r, k, i)
  {
  }

  // ---------------------------------------------------------------- completing it

  /** Every byte of message k is known. */
  ghost predicate AllKnown(r: Reassembly, k: Uint16, total: nat) {
    forall i :: 0 <= i < total ==> Known(r, k, i).Some?
  }

  lemma MergeCompletes(r: Reassembly, p: Piece)
    requires Shaped(r) && Fits(p) && p.sequence in r.fragments && p.sequence !in r.messages && Merge(r, p).error.None?
    ensures var s := Merge(r, p).state;
            && (p.sequence in s.messages <==> AllKnown(s, p.sequence, p.totalLength))
            && (p.sequence in s.messages <==> p.sequence !in s.fragments)
            && (p.sequence in s.messages ==>
                  && s.messages[p.sequence].messageType == p.messageType && |s.messages[p.sequence].body| == p.totalLength
                  && s.messages[p.sequence].sequence == p.sequence)
            && (forall k :: k != p.sequence ==> (k in s.messages <==> k in r.messages) && (k in s.fragments <==> k in r.fragments))
  {
    hide Write, Agreeing;
    var f := r.fragments[p.sequence];
    var g := Write(f, p.offset, p.data);
    var s := Merge(r, p).state;
    WriteLength(f, p.offset, p.data);
    if !AllReceived(g) {
      var i :| 0 <= i < |g.received| && !g.received[i];
      assert Known(s, p.sequence, i).None?;
    }
  }

  /** An accepted fragment completes its message if and only if every byte is then known,
      with the type, length and sequence the fragment names; and it touches no other. */
  lemma CompletesExactly(r: Reassembly, p: Piece)
    requires Good(r) && Fits(p) && AddPiece(r, p).error.None?
    ensures var s := AddPiece(r, p).state;
            && (p.sequence in s.messages <==> AllKnown(s, p.sequence, p.totalLength))
            && (p.sequence in s.messages <==> p.sequence !in s.fragments)
            && (p.sequence in s.messages ==>
                  && s.messages[p.sequence].messageType == p.messageType && |s.messages[p.sequence].body| == p.totalLength
                  && s.messages[p.sequence].sequence == p.sequence)
            && (forall k :: k != p.sequence ==> (k in s.messages <==> k in r.messages) && (k in s.fragments <==> k in r.fragments))
  {
    hide Charged, Merge, NewPartial;
    if p.sequence !in r.messages {
      if p.sequence in r.fragments {
        MergeCompletes(r, p);
      } else {
        MergeCompletes(r.(fragments := r.fragments[p.sequence := NewPartial(p)], bytes := r.bytes + 2 * p.totalLength), p);
      }
    }
  }
}
