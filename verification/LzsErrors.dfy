/** What decompressLZS reports when it fails, for every input that begins with tokens it can
    decode: a stream cut short, an output that does not fit, an offset that points nowhere. */
module LzsErrors {
  import opened Bytes
  import opened LzsFormat
  import opened LzsDecoder

  // ---------------------------------------------------------------- after good tokens

  /** Tokens that fit are decoded, whatever follows them. */
  lemma {:induction false} TokensRead(bits: BitString, pos: nat, tokens: seq<Token>, out: seq<Byte>, capacity: nat)
    requires AllEncodable(tokens, |out|) && |Expand(out, tokens)| <= capacity
    requires At(bits, pos, EncodeTokens(tokens, |out|))
    ensures Decode(bits, pos, out, capacity)
         == Decode(bits, pos + |EncodeTokens(tokens, |out|)|, Expand(out, tokens), capacity)
    decreases |tokens|
  {
    hide Decode, At, TokenBits;
    if tokens != [] {
      var next := |out| + TokenLength(tokens[0]);
      AtConcat(bits, pos, TokenBits(tokens[0]), EncodeTokens(tokens[1..], next));
      FirstTokenFits(tokens, out);
      TokenReads(bits, pos, tokens[0], out, capacity);
      TokensRead(bits, pos + |TokenBits(tokens[0])|, tokens[1..], Apply(out, tokens[0]), capacity);
    }
  }

  // ---------------------------------------------------------------- no room

  lemma {:induction false} ExtensionTooLong(bits: BitString, pos: nat, length: nat, extra: nat, room: int)
    requires At(bits, pos, ExtensionBits(extra)) && length + extra > room
    ensures ExtendLength(bits, pos, length, room) == Err(OutputFull)
    decreases extra
  {
    if extra < 15 {
      ReadField(bits, pos, extra, 4);
    } else {
      AtConcat(bits, pos, BitsOf(15, 4), ExtensionBits(extra - 15));
      ReadField(bits, pos, 15, 4);
      if 15 <= room - length {
        ExtensionTooLong(bits, pos + 4, length + 15, extra - 15, room);
      }
    }
  }

  lemma LengthTooLong(bits: BitString, pos: nat, length: nat, room: int)
    requires length >= 2 && At(bits, pos, LengthBits(length)) && length > room
    ensures var r := DecodeLength(bits, pos, room); r == Err(OutputFull) || (r.Ok? && r.value.value == length)
  {
    if length < 5 {
      ReadField(bits, pos, length - 2, 2);
    } else {
      PrefixOnes(bits, pos, length, room);
      if length < 8 {
        ReadField(bits, pos + 2, length - 5, 2);
      } else {
        ReadField(bits, pos + 2, 3, 2);
        AtConcat(bits, pos, BitsOf(15, 4), ExtensionBits(length - 8));
        ExtensionTooLong(bits, pos + 4, 8, length - 8, room);
      }
    }
  }

  lemma TokenTooLong(bits: BitString, pos: nat, t: Token, out: seq<Byte>, capacity: nat)
    requires Encodable(t, |out|) && At(bits, pos, TokenBits(t)) && |out| + TokenLength(t) > capacity
    ensures Decode(bits, pos, out, capacity) == Err(OutputFull)
  {
    hide ReadBits, At, BitsOf, DecodeLength, DecodeOffset, CopyBack, LengthBits, OffsetBits;
    match t
    case Literal(value) =>
      ReadField(bits, pos, value, 9);
    case Match(offset, length, wide) =>
      AtConcat(bits, pos, OffsetBits(offset, wide), LengthBits(length));
      OffsetReads(bits, pos, offset, wide);
      LengthTooLong(bits, pos + |OffsetBits(offset, wide)|, length, capacity - |out|);
  }

  /** Tokens that fit and then one that does not: the output is full. */
  lemma FullIsReported(bits: BitString, tokens: seq<Token>, t: Token, capacity: nat)
    requires AllEncodable(tokens, 0) && |Expand([], tokens)| <= capacity && Encodable(t, |Expand([], tokens)|)
    requires |Expand([], tokens)| + TokenLength(t) > capacity
    requires At(bits, 0, EncodeTokens(tokens, 0) + TokenBits(t))
    ensures Decode(bits, 0, [], capacity) == Err(OutputFull)
  {
    hide Decode, At, TokenBits;
    AtConcat(bits, 0, EncodeTokens(tokens, 0), TokenBits(t));
    TokensRead(bits, 0, tokens, [], capacity);
    TokenTooLong(bits, |EncodeTokens(tokens, 0)|, t, Expand([], tokens), capacity);
  }

  // ---------------------------------------------------------------- no such offset

  lemma WideZeroReads(bits: BitString, pos: nat)
    requires At(bits, pos, OffsetBits(0, true))
    ensures ReadBits(bits, pos, 9) == Ok(0x100) && DecodeOffset(bits, pos + 9, 0x100) == Ok(Field(0, pos + 13))
  {
    SplitWide(0x100, 0);
    AtConcat(bits, pos, BitsOf(0x100, 9), BitsOf(0, 4));
    ReadField(bits, pos, 0x100, 9);
    ReadField(bits, pos + 9, 0, 4);
  }

  /** Tokens that fit and then an offset of zero, in the form that is not the end marker, or
      one that reaches before the output: the offset is invalid, whatever follows. */
  lemma BadOffsetIsReported(bits: BitString, tokens: seq<Token>, offset: nat, wide: bool, capacity: nat)
    requires AllEncodable(tokens, 0) && |Expand([], tokens)| <= capacity
    requires offset < (if wide then 2048 else 128) && (offset == 0 ==> wide)
    requires offset == 0 || offset > |Expand([], tokens)|
    requires At(bits, 0, EncodeTokens(tokens, 0) + OffsetBits(offset, wide))
    ensures Decode(bits, 0, [], capacity) == Err(InvalidOffset)
  {
    hide At, OffsetBits, ReadBits, DecodeOffset, DecodeLength;
    var out, pos := Expand([], tokens), |EncodeTokens(tokens, 0)|;
    AtConcat(bits, 0, EncodeTokens(tokens, 0), OffsetBits(offset, wide));
    TokensRead(bits, 0, tokens, [], capacity);
    if offset == 0 {
      WideZeroReads(bits, pos);
    } else {
      OffsetReads(bits, pos, offset, wide);
    }
    assert Decode(bits, pos, out, capacity) == Err(InvalidOffset);
  }

  // ---------------------------------------------------------------- cut short

  /** A read from the front part of a stream is the same read, or runs out. */
  lemma PrefixRead(bits: BitString, whole: BitString, pos: nat, n: nat)
    requires bits <= whole
    ensures ReadBits(bits, pos, n) == if pos + n <= |bits| then ReadBits(whole, pos, n) else Err(Truncated)
  {
    if pos + n <= |bits| {
      assert bits[pos..pos + n] == whole[pos..pos + n];
    }
  }

  lemma {:induction false} PrefixExtend(bits: BitString, whole: BitString, pos: nat, length: nat, room: int)
    requires bits <= whole && ExtendLength(whole, pos, length, room).Ok?
    ensures ExtendLength(bits, pos, length, room)
         == if ExtendLength(whole, pos, length, room).value.next <= |bits| then ExtendLength(whole, pos, length, room)
            else Err(Truncated)
    decreases |whole| - pos
  {
    hide ReadBits;
    PrefixRead(bits, whole, pos, 4);
    NibbleRead(whole, pos);
    var addition := ReadBits(whole, pos, 4).value;
    if addition == 15 {
      ReadInside(whole, pos, 4);
      PrefixExtend(bits, whole, pos + 4, length + addition, room);
    }
  }

  lemma ReadInside(bits: BitString, pos: nat, n: nat)
    requires ReadBits(bits, pos, n).Ok?
    ensures pos + n <= |bits|
  {
  }

  lemma PrefixLength(bits: BitString, whole: BitString, pos: nat, room: int)
    requires bits <= whole && DecodeLength(whole, pos, room).Ok?
    ensures DecodeLength(bits, pos, room)
         == if DecodeLength(whole, pos, room).value.next <= |bits| then DecodeLength(whole, pos, room) else Err(Truncated)
  {
    hide ReadBits;
    PrefixRead(bits, whole, pos, 2);
    if ReadBits(whole, pos, 2) == Ok(3) {
      PrefixRead(bits, whole, pos + 2, 2);
      if ReadBits(whole, pos + 2, 2) == Ok(3) {
        PrefixExtend(bits, whole, pos + 4, 8, room);
      }
    }
  }

  lemma TokenCut(bits: BitString, whole: BitString, pos: nat, t: Token, out: seq<Byte>, capacity: nat)
    requires bits <= whole && Encodable(t, |out|) && |out| + TokenLength(t) <= capacity
    requires At(whole, pos, TokenBits(t)) && pos + |TokenBits(t)| > |bits|
    ensures Decode(bits, pos, out, capacity) == Err(Truncated)
  {
    hide ReadBits, At, BitsOf, DecodeLength, CopyBack, LengthBits, OffsetBits;
    PrefixRead(bits, whole, pos, 9);
    match t
    case Literal(value) =>
      assert |TokenBits(t)| == 9;
    case Match(offset, length, wide) =>
      AtConcat(whole, pos, OffsetBits(offset, wide), LengthBits(length));
      OffsetReads(whole, pos, offset, wide);
      PrefixRead(bits, whole, pos + 9, 4);
      LengthReads(whole, pos + |OffsetBits(offset, wide)|, length, capacity - |out|);
      PrefixLength(bits, whole, pos + |OffsetBits(offset, wide)|, capacity - |out|);
  }

  lemma {:induction false} CutFrom(bits: BitString, whole: BitString, pos: nat, tokens: seq<Token>, out: seq<Byte>, capacity: nat)
    requires bits <= whole && pos <= |bits| && AllEncodable(tokens, |out|) && |Expand(out, tokens)| <= capacity
    requires whole[pos..] == EncodeTokens(tokens, |out|) + EndMarker() && pos <= |whole| && bits != whole
    ensures Decode(bits, pos, out, capacity) == Err(Truncated)
    decreases |tokens|
  {
    hide Decode, TokenBits;
    if tokens == [] {
      MarkerCut(bits, whole, pos, out, capacity);
    } else {
      var field, next := TokenBits(tokens[0]), |out| + TokenLength(tokens[0]);
      var rest := EncodeTokens(tokens[1..], next) + EndMarker();
      AppendAssociates(field, EncodeTokens(tokens[1..], next), EndMarker());
      assert whole[pos..] == field + rest;
      assert At(whole, pos, field) by {
        assert whole[pos..pos + |field|] == whole[pos..][..|field|] == field;
      }
      FirstTokenFits(tokens, out);
      if pos + |field| > |bits| {
        TokenCut(bits, whole, pos, tokens[0], out, capacity);
      } else {
        assert At(bits, pos, field) by {
          assert bits[pos..pos + |field|] == whole[pos..pos + |field|];
        }
        TokenReads(bits, pos, tokens[0], out, capacity);
        assert whole[pos + |field|..] == whole[pos..][|field|..] == rest;
        CutFrom(bits, whole, pos + |field|, tokens[1..], Apply(out, tokens[0]), capacity);
      }
    }
  }

  lemma MarkerCut(bits: BitString, whole: BitString, pos: nat, out: seq<Byte>, capacity: nat)
    requires bits <= whole && bits != whole && pos <= |bits| && whole[pos..] == EndMarker()
    ensures Decode(bits, pos, out, capacity) == Err(Truncated)
  {
    assert |whole| == pos + 9;
  }

  /** Every proper front part of a stream that fits is reported as truncated, wherever it is
      cut. */
  lemma PrefixIsTruncated(bits: BitString, tokens: seq<Token>, capacity: nat)
    requires AllEncodable(tokens, 0) && |Expand([], tokens)| <= capacity
    requires bits < EncodeTokens(tokens, 0) + EndMarker()
    ensures Decode(bits, 0, [], capacity) == Err(Truncated)
  {
    var whole := EncodeTokens(tokens, 0) + EndMarker();
    assert whole[0..] == whole;
    CutFrom(bits, whole, 0, tokens, [], capacity);
  }
}
