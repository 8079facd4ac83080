/** decompressLZS as a function of its bits, and the theorem that it accepts exactly the
    LZS streams. */
module LzsDecoder {
  import opened Bytes
  import opened Bits
  import opened LzsFormat

  datatype DecodeError = Truncated | OutputFull | InvalidOffset

  type Decoded<T> = Result<T, DecodeError>

  datatype Field = Field(value: nat, next: nat)

  // ---------------------------------------------------------------- specification

  function ReadBits(bits: BitString, pos: nat, n: nat): Decoded<nat> {
    if pos + n > |bits| then Err(Truncated) else Ok(ValueOf(bits[pos..pos + n]))
  }

  /** The groups of four bits after 1111: each adds its value, 15 asks for another. */
  function ExtendLength(bits: BitString, pos: nat, length: nat, room: int): (r: Decoded<Field>)
    ensures r.Ok? ==> pos < r.value.next <= |bits|
    decreases |bits| - pos
  {
    match ReadBits(bits, pos, 4)
    case Err(e) => Err(e)
    case Ok(addition) =>
      if addition > room - length then Err(OutputFull)
      else if addition != 15 then Ok(Field(length + addition, pos + 4))
      else ExtendLength(bits, pos + 4, length + addition, room)
  }

  function DecodeLength(bits: BitString, pos: nat, room: int): (r: Decoded<Field>)
    ensures r.Ok? ==> pos < r.value.next <= |bits|
  {
    match ReadBits(bits, pos, 2)
    case Err(e) => Err(e)
    case Ok(first) =>
      if first != 3 then Ok(Field(first + 2, pos + 2))
      else
        match ReadBits(bits, pos + 2, 2)
        case Err(e) => Err(e)
        case Ok(second) =>
          if second != 3 then Ok(Field(second + 5, pos + 4))
          else ExtendLength(bits, pos + 4, 8, room)
  }

  /** The offset of a match whose nine-bit code has been read. */
  function DecodeOffset(bits: BitString, pos: nat, code: nat): Decoded<Field> {
    if code >= END_CODE then Ok(Field(code % 128, pos))
    else
      match ReadBits(bits, pos, 4)
      case Err(e) => Err(e)
      case Ok(low) => Ok(Field((code % 128) * 16 + low, pos + 4))
  }

  /** What the decoder returns from bit pos on, having produced out. */
  function Decode(bits: BitString, pos: nat, out: seq<Byte>, capacity: nat): Decoded<seq<Byte>>
    decreases |bits| - pos
  {
    match ReadBits(bits, pos, 9)
    case Err(e) => Err(e)
    case Ok(code) =>
      if code < 0x100 then
        if |out| >= capacity then Err(OutputFull) else Decode(bits, pos + 9, out + [code], capacity)
      else if code == END_CODE then Ok(out)
      else
        match DecodeOffset(bits, pos + 9, code)
        case Err(e) => Err(e)
        case Ok(offset) => DecodeMatch(bits, pos, offset, out, capacity)
  }

  function DecodeMatch(bits: BitString, pos: nat, offset: Field, out: seq<Byte>, capacity: nat)
    : Decoded<seq<Byte>>
    requires pos + 9 <= |bits| && pos + 9 <= offset.next
    decreases |bits| - pos, 0
  {
    if offset.value == 0 || offset.value > |out| then Err(InvalidOffset)
    else
      match DecodeLength(bits, offset.next, capacity - |out|)
      case Err(e) => Err(e)
      case Ok(length) =>
        if length.value > capacity - |out| then Err(OutputFull)
        else Decode(bits, length.next, CopyBack(out, offset.value, length.value), capacity)
  }

  // ---------------------------------------------------------------- fields in place

  /** The field stands at bit pos. */
  ghost predicate At(bits: BitString, pos: nat, field: BitString) {
    pos + |field| <= |bits| && bits[pos..pos + |field|] == field
  }

  lemma AtConcat(bits: BitString, pos: nat, a: BitString, b: BitString)
    ensures At(bits, pos, a + b) <==> At(bits, pos, a) && At(bits, pos + |a|, b)
  {
    if pos + |a| + |b| <= |bits| {
      var whole := bits[pos..pos + |a| + |b|];
      assert whole[..|a|] == bits[pos..pos + |a|];
      assert whole[|a|..] == bits[pos + |a|..pos + |a| + |b|];
      if At(bits, pos, a + b) {
        assert (a + b)[..|a|] == a && (a + b)[|a|..] == b;
      }
    }
  }

  /** Reading n bits gives v exactly when the n-bit field v stands there. */
  lemma ReadField(bits: BitString, pos: nat, v: nat, n: nat)
    requires v < Pow2(n)
    ensures ReadBits(bits, pos, n) == Ok(v) <==> At(bits, pos, BitsOf(v, n))
  {
    if pos + n <= |bits| {
      FieldValue(bits[pos..pos + n], v);
    }
  }

  lemma FieldValue(field: BitString, v: nat)
    requires v < Pow2(|field|)
    ensures ValueOf(field) == v <==> field == BitsOf(v, |field|)
  {
    ValueOfBitsOf(v, |field|);
    BitsOfValueOf(field);
  }

  lemma ReadBound(bits: BitString, pos: nat, n: nat)
    ensures ReadBits(bits, pos, n).Ok? ==> ReadBits(bits, pos, n).value < Pow2(n)
  {
    if pos + n <= |bits| {
      BitsOfValueOf(bits[pos..pos + n]);
    }
  }

  // ---------------------------------------------------------------- lengths

  lemma {:induction false} ExtensionReads(bits: BitString, pos: nat, length: nat, extra: nat, room: int)
    requires At(bits, pos, ExtensionBits(extra))
    requires length + extra <= room
    ensures ExtendLength(bits, pos, length, room)
         == Ok(Field(length + extra, pos + |ExtensionBits(extra)|))
    decreases extra
  {
    if extra < 15 {
      ReadField(bits, pos, extra, 4);
    } else {
      AtConcat(bits, pos, BitsOf(15, 4), ExtensionBits(extra - 15));
      ReadField(bits, pos, 15, 4);
      ExtensionReads(bits, pos + 4, length + 15, extra - 15, room);
    }
  }

  lemma NibbleRead(bits: BitString, pos: nat)
    requires ReadBits(bits, pos, 4).Ok?
    ensures ReadBits(bits, pos, 4).value < 16 && At(bits, pos, BitsOf(ReadBits(bits, pos, 4).value, 4))
  {
    ReadBound(bits, pos, 4);
    assert Pow2(4) == 16;
    ReadField(bits, pos, ReadBits(bits, pos, 4).value, 4);
  }

  lemma {:induction false} ExtensionSound(bits: BitString, pos: nat, length: nat, room: int)
    requires ExtendLength(bits, pos, length, room).Ok?
    ensures var f := ExtendLength(bits, pos, length, room).value;
            && length <= f.value
            && At(bits, pos, ExtensionBits(f.value - length))
            && f.next == pos + |ExtensionBits(f.value - length)|
    decreases |bits| - pos
  {
    hide ReadBits, At, BitsOf;
    var addition := ReadBits(bits, pos, 4).value;
    NibbleRead(bits, pos);
    if addition == 15 {
      var f := ExtendLength(bits, pos, length, room).value;
      ExtensionSound(bits, pos + 4, length + 15, room);
      AtConcat(bits, pos, BitsOf(15, 4), ExtensionBits(f.value - length - 15));
    }
  }

  lemma LengthReads(bits: BitString, pos: nat, length: nat, room: int)
    requires 2 <= length <= room
    requires At(bits, pos, LengthBits(length))
    ensures DecodeLength(bits, pos, room) == Ok(Field(length, pos + |LengthBits(length)|))
  {
    if length < 5 {
      ReadField(bits, pos, length - 2, 2);
    } else {
      PrefixOnes(bits, pos, length, room);
      if length < 8 {
        ReadField(bits, pos + 2, length - 5, 2);
      } else {
        ReadField(bits, pos + 2, 3, 2);
        AtConcat(bits, pos, BitsOf(15, 4), ExtensionBits(length - 8));
        ExtensionReads(bits, pos + 4, 8, length - 8, room);
      }
    }
  }

  /** Four-bit length codes are two two-bit codes, the first of them 3. */
  lemma PrefixOnes(bits: BitString, pos: nat, length: nat, room: int)
    requires length >= 5
    requires At(bits, pos, LengthBits(length))
    ensures ReadBits(bits, pos, 2) == Ok(3)
    ensures At(bits, pos + 2, BitsOf(if length < 8 then length - 5 else 3, 2))
  {
    var v := if length < 8 then length + 7 else 15;
    if length >= 8 {
      AtConcat(bits, pos, BitsOf(15, 4), ExtensionBits(length - 8));
    }
    SplitNibble(3, v - 12);
    AtConcat(bits, pos, BitsOf(3, 2), BitsOf(v - 12, 2));
    ReadField(bits, pos, 3, 2);
  }

  lemma LengthSound(bits: BitString, pos: nat, room: int)
    requires DecodeLength(bits, pos, room).Ok?
    ensures var f := DecodeLength(bits, pos, room).value;
            && f.value >= 2
            && At(bits, pos, LengthBits(f.value))
            && f.next == pos + |LengthBits(f.value)|
  {
    var first := ReadBits(bits, pos, 2).value;
    ReadBound(bits, pos, 2);
    assert Pow2(2) == 4;
    ReadField(bits, pos, first, 2);
    if first == 3 {
      var second := ReadBits(bits, pos + 2, 2).value;
      ReadBound(bits, pos + 2, 2);
      ReadField(bits, pos + 2, second, 2);
      SplitNibble(3, second);
      AtConcat(bits, pos, BitsOf(3, 2), BitsOf(second, 2));
      if second == 3 {
        ExtensionSound(bits, pos + 4, 8, room);
        var f := DecodeLength(bits, pos, room).value;
        AtConcat(bits, pos, BitsOf(15, 4), ExtensionBits(f.value - 8));
      }
    }
  }

  // ---------------------------------------------------------------- tokens

  /** The code and the offset a match field stands for. */
  lemma OffsetReads(bits: BitString, pos: nat, offset: nat, wide: bool)
    requires 1 <= offset < (if wide then WINDOW else 128)
    requires At(bits, pos, OffsetBits(offset, wide))
    ensures var code := if wide then 0x100 + offset / 16 else 0x180 + offset;
            && ReadBits(bits, pos, 9) == Ok(code)
            && DecodeOffset(bits, pos + 9, code) == Ok(Field(offset, pos + |OffsetBits(offset, wide)|))
  {
    if wide {
      SplitWide(0x100 + offset / 16, offset % 16);
      AtConcat(bits, pos, BitsOf(0x100 + offset / 16, 9), BitsOf(offset % 16, 4));
      ReadField(bits, pos, 0x100 + offset / 16, 9);
      ReadField(bits, pos + 9, offset % 16, 4);
    } else {
      ReadField(bits, pos, 0x180 + offset, 9);
    }
  }

  lemma OffsetSound(bits: BitString, pos: nat, code: nat)
    requires ReadBits(bits, pos, 9) == Ok(code)
    requires code >= 0x100 && code != END_CODE
    requires DecodeOffset(bits, pos + 9, code).Ok?
    ensures var f := DecodeOffset(bits, pos + 9, code).value;
            && f.value < (if code < END_CODE then WINDOW else 128)
            && At(bits, pos, OffsetBits(f.value, code < END_CODE))
            && f.next == pos + |OffsetBits(f.value, code < END_CODE)|
  {
    ReadBound(bits, pos, 9);
    assert Pow2(9) == 512;
    ReadField(bits, pos, code, 9);
    if code < END_CODE {
      var low := ReadBits(bits, pos + 9, 4).value;
      ReadBound(bits, pos + 9, 4);
      assert Pow2(4) == 16;
      ReadField(bits, pos + 9, low, 4);
      SplitWide(code, low);
      AtConcat(bits, pos, BitsOf(code, 9), BitsOf(low, 4));
      assert (code % 128) * 16 + low + 0x1000 == 16 * code + low;
    } else {
      assert code % 128 + 0x180 == code;
    }
  }

  /** One token in place is one step of the decoder. */
  lemma TokenReads(bits: BitString, pos: nat, t: Token, out: seq<Byte>, capacity: nat)
    requires Encodable(t, |out|) && |out| + TokenLength(t) <= capacity
    requires At(bits, pos, TokenBits(t))
    ensures Decode(bits, pos, out, capacity)
         == Decode(bits, pos + |TokenBits(t)|, Apply(out, t), capacity)
  {
    hide ReadBits, At, BitsOf, DecodeLength, DecodeOffset, CopyBack, LengthBits, OffsetBits;
    match t
    case Literal(value) =>
      ReadField(bits, pos, value, 9);
    case Match(offset, length, wide) =>
      AtConcat(bits, pos, OffsetBits(offset, wide), LengthBits(length));
      OffsetReads(bits, pos, offset, wide);
      LengthReads(bits, pos + |OffsetBits(offset, wide)|, length, capacity - |out|);
  }

  /** tokens and the end marker stand at bit pos, one after the other. */
  ghost predicate StreamAt(bits: BitString, pos: nat, tokens: seq<Token>, produced: nat)
    requires AllEncodable(tokens, produced)
    decreases |tokens|
  {
    if tokens == [] then At(bits, pos, EndMarker())
    else
      && At(bits, pos, TokenBits(tokens[0]))
      && StreamAt(bits, pos + |TokenBits(tokens[0])|, tokens[1..], produced + TokenLength(tokens[0]))
  }

  lemma SplitFirst(bits: BitString, pos: nat, a: BitString, b: BitString, c: BitString)
    requires At(bits, pos, (a + b) + c)
    ensures At(bits, pos, a) && At(bits, pos + |a|, b + c)
  {
    AppendAssociates(a, b, c);
    AtConcat(bits, pos, a, b + c);
  }

  /** An encoded stream followed by the end marker is such a place. */
  lemma {:induction false} EncodedStreamAt(bits: BitString, pos: nat, tokens: seq<Token>, produced: nat)
    requires AllEncodable(tokens, produced)
    requires At(bits, pos, EncodeTokens(tokens, produced) + EndMarker())
    ensures StreamAt(bits, pos, tokens, produced)
    decreases |tokens|
  {
    hide At, TokenBits;
    if tokens == [] {
      assert [] + EndMarker() == EndMarker();
    } else {
      var next := produced + TokenLength(tokens[0]);
      SplitFirst(bits, pos, TokenBits(tokens[0]), EncodeTokens(tokens[1..], next), EndMarker());
      EncodedStreamAt(bits, pos + |TokenBits(tokens[0])|, tokens[1..], next);
    }
  }

  lemma MarkerEnds(bits: BitString, pos: nat, out: seq<Byte>, capacity: nat)
    requires At(bits, pos, EndMarker())
    ensures Decode(bits, pos, out, capacity) == Ok(out)
  {
    ReadField(bits, pos, END_CODE, 9);
  }

  /** The room a stream needs covers its first token. */
  lemma FirstTokenFits(tokens: seq<Token>, out: seq<Byte>)
    requires tokens != [] && AllEncodable(tokens, |out|)
    ensures |out| + TokenLength(tokens[0]) <= |Expand(out, tokens)|
  {
    assert Expand(out, tokens) == Expand(Apply(out, tokens[0]), tokens[1..]);
  }

  /** A token stream decodes to what it stands for. */
  lemma {:induction false} StreamReads(bits: BitString, pos: nat, tokens: seq<Token>, out: seq<Byte>, capacity: nat)
    requires AllEncodable(tokens, |out|) && |Expand(out, tokens)| <= capacity
    requires StreamAt(bits, pos, tokens, |out|)
    ensures Decode(bits, pos, out, capacity) == Ok(Expand(out, tokens))
    decreases |tokens|
  {
    hide TokenBits, Decode;
    if tokens == [] {
      MarkerEnds(bits, pos, out, capacity);
    } else {
      FirstTokenFits(tokens, out);
      TokenReads(bits, pos, tokens[0], out, capacity);
      StreamReads(bits, pos + |TokenBits(tokens[0])|, tokens[1..], Apply(out, tokens[0]), capacity);
    }
  }

  /** The token at pos, when the decoder does not stop there. */
  lemma TokenSound(bits: BitString, pos: nat, out: seq<Byte>, capacity: nat) returns (t: Token)
    requires Decode(bits, pos, out, capacity).Ok? && |out| <= capacity
    requires ReadBits(bits, pos, 9) != Ok(END_CODE)
    ensures Encodable(t, |out|) && |out| + TokenLength(t) <= capacity
    ensures At(bits, pos, TokenBits(t)) && |TokenBits(t)| > 0
  {
    var code := ReadBits(bits, pos, 9).value;
    if code < 0x100 {
      t := Literal(code);
      ReadField(bits, pos, code, 9);
    } else {
      OffsetSound(bits, pos, code);
      var offset := DecodeOffset(bits, pos + 9, code).value;
      LengthSound(bits, offset.next, capacity - |out|);
      var length := DecodeLength(bits, offset.next, capacity - |out|).value;
      t := Match(offset.value, length.value, code < END_CODE);
      AtConcat(bits, pos, OffsetBits(t.offset, t.wide), LengthBits(t.length));
    }
  }

  lemma PrependToken(bits: BitString, pos: nat, t: Token, rest: seq<Token>, out: seq<Byte>)
    requires Encodable(t, |out|) && At(bits, pos, TokenBits(t))
    requires AllEncodable(rest, |Apply(out, t)|) && StreamAt(bits, pos + |TokenBits(t)|, rest, |Apply(out, t)|)
    ensures AllEncodable([t] + rest, |out|) && StreamAt(bits, pos, [t] + rest, |out|)
    ensures Expand(out, [t] + rest) == Expand(Apply(out, t), rest)
  {
    hide At, TokenBits, CopyBack, Encodable;
    assert ([t] + rest)[1..] == rest;
  }

  /** Whatever the decoder accepts is a token stream; the lemma returns it. */
  lemma {:induction false} DecodeSound(bits: BitString, pos: nat, out: seq<Byte>, capacity: nat)
    returns (tokens: seq<Token>)
    requires Decode(bits, pos, out, capacity).Ok? && |out| <= capacity
    ensures AllEncodable(tokens, |out|) && StreamAt(bits, pos, tokens, |out|)
    ensures Decode(bits, pos, out, capacity) == Ok(Expand(out, tokens))
    ensures |Expand(out, tokens)| <= capacity
    decreases |bits| - pos
  {
    if ReadBits(bits, pos, 9) == Ok(END_CODE) {
      tokens := [];
      ReadField(bits, pos, END_CODE, 9);
    } else {
      var t := TokenSound(bits, pos, out, capacity);
      TokenReads(bits, pos, t, out, capacity);
      var rest := DecodeSound(bits, pos + |TokenBits(t)|, Apply(out, t), capacity);
      PrependToken(bits, pos, t, rest, out);
      tokens := [t] + rest;
    }
  }

  /** tokens, closed by the end marker, stand at the front of bits and mean out. */
  ghost predicate Represents(bits: BitString, tokens: seq<Token>, out: seq<Byte>) {
    && AllEncodable(tokens, 0)
    && StreamAt(bits, 0, tokens, 0)
    && Expand([], tokens) == out
  }

  /** The decoder accepts exactly the LZS streams whose text fits, with that text. */
  lemma AcceptsExactlyStreams(bits: BitString, out: seq<Byte>, capacity: nat)
    ensures Decode(bits, 0, [], capacity) == Ok(out)
       <==> |out| <= capacity && exists tokens :: Represents(bits, tokens, out)
  {
    if Decode(bits, 0, [], capacity) == Ok(out) {
      var tokens := DecodeSound(bits, 0, [], capacity);
      assert Represents(bits, tokens, out);
    }
    if |out| <= capacity && exists tokens :: Represents(bits, tokens, out) {
      var tokens :| Represents(bits, tokens, out);
      StreamReads(bits, 0, tokens, [], capacity);
    }
  }
}
