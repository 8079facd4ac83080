/** When a handshake message has every byte received and is still not complete: add looks
    for completeness only after a fragment was copied whole, so a fragment that fills the
    last gap and then contradicts a received byte leaves the message partial. */
module HandshakeStalls {
  import opened Bytes
  import opened HandshakeFragments
  import opened HandshakeReassembly

  /** Message k is partial although all its bytes are there. */
  ghost predicate Stalled(r: Reassembly, k: Uint16) {
    k in r.fragments && AllReceived(r.fragments[k])
  }

  ghost predicate NoneStalled(r: Reassembly) {
    forall k :: k in r.fragments ==> !Stalled(r, k)
  }

  /** The fragment belongs to the partial message with its number. */
  predicate SameMessage(r: Reassembly, p: Piece) {
    && p.sequence in r.fragments
    && r.fragments[p.sequence].messageType == p.messageType && r.fragments[p.sequence].totalLength == p.totalLength
  }

  /** The fragment contradicts a received byte, and what it brings before that byte is all
      that was missing. */
  ghost predicate Stalls(r: Reassembly, p: Piece)
    requires Shaped(r) && Fits(p)
  {
    && SameMessage(r, p)
    && var f := r.fragments[p.sequence];
       var k := Agreeing(f, p.offset, p.data);
       && k < |p.data|
       && forall i :: 0 <= i < f.totalLength && !f.received[i] ==> p.offset <= i < p.offset + k
  }

  lemma WriteFills(f: Partial, offset: nat, data: seq<Byte>)
    requires ShapedPartial(f) && offset + |data| <= f.totalLength
    ensures AllReceived(Write(f, offset, data)) <==>
              forall i :: 0 <= i < f.totalLength && !f.received[i] ==> offset <= i < offset + |data|
  {
    var g := Write(f, offset, data);
    assert forall i :: 0 <= i < f.totalLength ==>
             g.received[i] == (f.received[i] || offset <= i < offset + |data|);
  }

  lemma MergeStalls(r: Reassembly, p: Piece)
    requires Shaped(r) && Fits(p) && p.sequence in r.fragments
    ensures var step := Merge(r, p);
            && (Stalled(step.state, p.sequence) <==> Stalls(r, p) || (Stalled(r, p.sequence) && step.error.Some?))
            && (Stalls(r, p) ==> step.error == Some(OverlapDiffers))
  {
    hide Agreeing, Write;
    if SameMessage(r, p) {
      var f := r.fragments[p.sequence];
      var k := Agreeing(f, p.offset, p.data);
      WriteFills(f, p.offset, p.data[..k]);
      if k == |p.data| {
        assert p.data[..k] == p.data;
      }
    }
  }

  /** A message begun by this very fragment has nothing to contradict. */
  lemma {:induction false} NewAgrees(f: Partial, offset: nat, data: seq<Byte>)
    requires ShapedPartial(f) && offset + |data| <= f.totalLength
    requires forall i :: 0 <= i < f.totalLength ==> !f.received[i]
    ensures Agreeing(f, offset, data) == |data|
    decreases |data|
  {
    if data != [] {
      NewAgrees(f, offset + 1, data[1..]);
    }
  }

  /** For every state and fragment: afterwards message k is stalled if and only if this
      fragment stalls it, or it was stalled and this fragment is another message's or was
      refused. */
  lemma StalledExactly(r: Reassembly, p: Piece, k: Uint16)
    requires Good(r) && Fits(p)
    ensures var step := AddPiece(r, p);
            && (Stalled(step.state, k) <==>
                  (k == p.sequence && Stalls(r, p)) || (Stalled(r, k) && (k != p.sequence || step.error.Some?)))
            && (Stalls(r, p) ==> step.error == Some(OverlapDiffers))
  {
    hide Charged, Merge, Agreeing, AllReceived, NewPartial;
    if p.sequence in r.fragments {
      MergeStalls(r, p);
      if k != p.sequence {
        MergeOthers(r, p, k);
      }
    } else if p.sequence !in r.messages && |r.fragments| + |r.messages| < MAX_MESSAGES && 2 * p.totalLength <= MAX_BYTES - r.bytes {
      var r' := r.(fragments := r.fragments[p.sequence := NewPartial(p)], bytes := r.bytes + 2 * p.totalLength);
      MergeStalls(r', p);
      if k != p.sequence {
        MergeOthers(r', p, k);
      }
      NewNeverStalls(r', p);
    }
  }

  lemma NewNeverStalls(r: Reassembly, p: Piece)
    requires Shaped(r) && Fits(p) && p.sequence in r.fragments && r.fragments[p.sequence] == NewPartial(p)
    ensures Merge(r, p).error.None? && !Stalls(r, p)
  {
    NewAgrees(NewPartial(p), p.offset, p.data);
  }

  lemma MergeOthers(r: Reassembly, p: Piece, k: Uint16)
    requires Shaped(r) && Fits(p) && p.sequence in r.fragments && k != p.sequence
    ensures Stalled(Merge(r, p).state, k) == Stalled(r, k)
  {
  }

  /** One fragment of a stalled message is enough: it is accepted if and only if it agrees
      with the bytes there, and then the message is complete with those bytes. */
  lemma StalledCompletes(r: Reassembly, p: Piece)
    requires Good(r) && Fits(p) && Stalled(r, p.sequence)
    ensures var f := r.fragments[p.sequence];
            var step := AddPiece(r, p);
            && (step.error.None? <==> SameMessage(r, p) && p.data == f.body[p.offset..p.offset + |p.data|])
            && (step.error.None? ==>
                  && p.sequence !in step.state.fragments
                  && step.state.messages == r.messages[p.sequence := Message(p.messageType, p.sequence, f.body)])
  {
    hide Charged, Agreeing, Write;
    var f := r.fragments[p.sequence];
    if SameMessage(r, p) {
      FullAgrees(f, p.offset, p.data);
      if p.data == f.body[p.offset..p.offset + |p.data|] {
        WriteSame(f, p.offset, p.data);
      }
    }
  }

  lemma {:induction false} FullAgrees(f: Partial, offset: nat, data: seq<Byte>)
    requires ShapedPartial(f) && offset + |data| <= f.totalLength && AllReceived(f)
    ensures Agreeing(f, offset, data) == |data| <==> data == f.body[offset..offset + |data|]
    decreases |data|
  {
    if data != [] {
      FullAgrees(f, offset + 1, data[1..]);
      var there := f.body[offset..offset + |data|];
      assert there == [f.body[offset]] + f.body[offset + 1..offset + |data|];
      assert data == [data[0]] + data[1..];
    }
  }

  lemma WriteSame(f: Partial, offset: nat, data: seq<Byte>)
    requires ShapedPartial(f) && offset + |data| <= f.totalLength && AllReceived(f)
    requires data == f.body[offset..offset + |data|]
    ensures Write(f, offset, data) == f
  {
    var g := Write(f, offset, data);
    assert g.body == f.body;
    assert g.received == f.received;
  }

  /** So no message is stalled after payloads that were taken without error, or refused
      for any other reason than bytes that differ. */
  lemma {:induction false} OnlyDifferingBytesStall(r: Reassembly, payload: seq<Byte>)
    requires Good(r) && NoneStalled(r) && Add(r, payload).error != Some(OverlapDiffers)
    ensures NoneStalled(Add(r, payload).state)
    decreases |payload|
  {
    hide Good, AddPiece, ParsePiece, AllReceived, Stalls;
    GoodShaped(r);
    if payload != [] && ParsePiece(payload).Ok? {
      var p := ParsePiece(payload).value;
      AddPieceGood(r, p);
      var step := AddPiece(r, p);
      forall k | k in step.state.fragments ensures !Stalled(step.state, k) {
        StalledExactly(r, p, k);
      }
      if step.error.None? {
        OnlyDifferingBytesStall(step.state, payload[HANDSHAKE_HEADER + |p.data|..]);
      }
    }
  }

  /** Message 0 has type 1 and two bytes, of which the second has come as 5. */
  function SecondByteCame(): (r: Reassembly)
    ensures Shaped(r)
  {
    Reassembly(map[0 := Partial(1, 2, [0, 5], [false, true])], map[], 4)
  }

  lemma SecondByteComes()
    ensures AddPiece(EMPTY, Piece(1, 2, 0, 1, [5])) == Step(SecondByteCame(), None)
    ensures Good(SecondByteCame())
  {
    var p := Piece(1, 2, 0, 1, [5]);
    assert AddPiece(EMPTY, p) == Step(SecondByteCame(), None) by {
      hide Charged, Agreeing;
      var f := NewPartial(p);
      NewAgrees(f, 1, [5]);
      assert f.body == [0, 0] && f.received == [false, false];
      assert Write(f, 1, [5]) == Partial(1, 2, [0, 5], [false, true]);
      assert !Partial(1, 2, [0, 5], [false, true]).received[0];
    }
    EmptyGood();
    AddPieceGood(EMPTY, p);
  }

  /** The fragment 7, 9 fills the gap and contradicts the 5: it is refused, and every byte
      is there. The fragment 7 alone then completes the message. */
  lemma StalledExample()
    ensures var r := SecondByteCame();
            && Good(r) && NoneStalled(r)
            && var refused := AddPiece(r, Piece(1, 2, 0, 0, [7, 9]));
               && refused.error == Some(OverlapDiffers) && Shaped(refused.state) && Stalled(refused.state, 0)
               && var completed := AddPiece(refused.state, Piece(1, 2, 0, 0, [7]));
                  && completed.error.None?
                  && completed.state.fragments == map[] && completed.state.messages == map[0 := Message(1, 0, [7, 5])]
  {
    hide Charged, Agreeing, Good;
    SecondByteComes();
    var r, q, s := SecondByteCame(), Piece(1, 2, 0, 0, [7, 9]), Piece(1, 2, 0, 0, [7]);
    var f := r.fragments[0];
    SevenAgrees(f);
    assert q.data[..1] == [7] && Write(f, 0, [7]) == Partial(1, 2, [7, 5], [true, true]);
    AddPieceGood(r, q);
    assert AddPiece(r, q).state.fragments == map[0 := Partial(1, 2, [7, 5], [true, true])];
    StalledCompletes(AddPiece(r, q).state, s);
  }

  lemma SevenAgrees(f: Partial)
    requires f == Partial(1, 2, [0, 5], [false, true])
    ensures Agreeing(f, 0, [7, 9]) == 1
  {
    assert [7, 9][1..] == [9];
  }
}
