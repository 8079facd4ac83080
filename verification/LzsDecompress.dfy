/** decompressLZS and lzsBitReader as they run: a bit cursor, a byte buffer filled
    in place, and loops. Each is proved against LzsDecoder. */
module LzsDecompress {
  import opened Bytes
  import opened Bits
  import opened LzsFormat
  import opened LzsDecoder

  class BitReader {
    const source: seq<Byte>
    var bitOffset: nat

    constructor (source: seq<Byte>)
      ensures this.source == source && bitOffset == 0
    {
      this.source := source;
      bitOffset := 0;
    }

    /** Reads a big-endian field of bitCount bits, or fails and stays where it is. */
    method Read(bitCount: int) returns (r: Decoded<nat>)
      modifies this`bitOffset
      ensures r == if 0 <= bitCount <= 32 then ReadBits(Stream(source), old(bitOffset), bitCount)
                   else Err(Truncated)
      ensures bitOffset == old(bitOffset) + (if r.Ok? then bitCount else 0)
    {
      hide ValueOf, StreamBit, Stream;
      if bitCount < 0 || bitCount > 32 || bitOffset + bitCount > |source| * 8 {
        return Err(Truncated);
      }
      ghost var bits := Stream(source);
      ghost var start := bitOffset;
      ValueOfNone(bits, start);
      var value := 0;
      for i := 0 to bitCount
        invariant bitOffset == start + i
        invariant value == ValueOf(bits[start..bitOffset])
      {
        var byteIndex := bitOffset / 8;
        var bitIndex := 7 - bitOffset % 8;
        value := 2 * value + (if Bit(source[byteIndex], bitIndex) then 1 else 0);
        ReadStep(source, start, bitOffset);
        bitOffset := bitOffset + 1;
      }
      return Ok(value);
    }
  }

  lemma ValueOfNone(bits: BitString, start: nat)
    requires start <= |bits|
    ensures ValueOf(bits[start..start]) == 0
  {
  }

  /** One more bit doubles the value and adds the bit. */
  lemma ReadStep(source: seq<Byte>, start: nat, end: nat)
    requires start <= end < 8 * |source|
    ensures ValueOf(Stream(source)[start..end + 1])
         == 2 * ValueOf(Stream(source)[start..end]) + (if Bit(source[end / 8], 7 - end % 8) then 1 else 0)
  {
    var bits := Stream(source);
    assert bits[start..end + 1][..end - start] == bits[start..end];
    assert bits[end] == StreamBit(source, end);
  }

  /** The groups of four after 1111, added up until one is not 15. */
  method ReadExtension(reader: BitReader, room: int) returns (r: Decoded<nat>)
    modifies reader`bitOffset
    ensures match ExtendLength(Stream(reader.source), old(reader.bitOffset), 8, room)
            case Err(e) => r == Err(e)
            case Ok(f) => r == Ok(f.value) && reader.bitOffset == f.next
  {
    hide ValueOf;
    var length: nat := 8;
    ghost var bits := Stream(reader.source);
    ghost var whole := ExtendLength(bits, reader.bitOffset, 8, room);
    while true
      invariant whole == ExtendLength(bits, reader.bitOffset, length, room)
      decreases |bits| - reader.bitOffset
    {
      var addition := reader.Read(4);
      if addition.Err? {
        return Err(addition.error);
      }
      if addition.value > room - length {
        return Err(OutputFull);
      }
      length := length + addition.value;
      if addition.value != 15 {
        return Ok(length);
      }
    }
  }

  method ReadLength(reader: BitReader, room: int) returns (r: Decoded<nat>)
    modifies reader`bitOffset
    ensures match DecodeLength(Stream(reader.source), old(reader.bitOffset), room)
            case Err(e) => r == Err(e)
            case Ok(f) => r == Ok(f.value) && reader.bitOffset == f.next
  {
    var lengthCode := reader.Read(2);
    if lengthCode.Err? {
      return Err(lengthCode.error);
    }
    if lengthCode.value != 3 {
      return Ok(lengthCode.value + 2);
    }
    lengthCode := reader.Read(2);
    if lengthCode.Err? {
      return Err(lengthCode.error);
    }
    if lengthCode.value != 3 {
      return Ok(lengthCode.value + 5);
    }
    r := ReadExtension(reader, room);
  }

  /** Copies forward one byte at a time; source and target ranges may overlap. */
  method CopyMatch(destination: array<Byte>, written: nat, offset: nat, length: nat)
    requires 1 <= offset <= written && written + length <= destination.Length
    modifies destination
    ensures destination[..written + length] == CopyBack(old(destination[..written]), offset, length)
  {
    ghost var text := destination[..written];
    var remaining: nat, end: nat := length, written;
    while remaining > 0
      invariant remaining <= length && end == written + length - remaining
      invariant CopyBack(text, offset, length) == CopyBack(destination[..end], offset, remaining)
    {
      ghost var before := destination[..end];
      destination[end] := destination[end - offset];
      assert destination[..end + 1] == before + [before[|before| - offset]];
      end := end + 1;
      remaining := remaining - 1;
    }
  }

  method ReadOffset(reader: BitReader, code: nat) returns (r: Decoded<nat>)
    modifies reader`bitOffset
    ensures match DecodeOffset(Stream(reader.source), old(reader.bitOffset), code)
            case Err(e) => r == Err(e)
            case Ok(f) => r == Ok(f.value) && reader.bitOffset == f.next
  {
    var offset := code % 128;
    if code < END_CODE {
      var low := reader.Read(4);
      if low.Err? {
        return Err(low.error);
      }
      offset := offset * 16 + low.value;
    }
    return Ok(offset);
  }

  /** The rest of a match whose code started at bit `start`: offset, length, copy.
      Returns how many bytes are written then. */
  method ReadMatch(reader: BitReader, ghost start: nat, code: nat, destination: array<Byte>, written: nat)
    returns (r: Decoded<nat>)
    requires written <= destination.Length && reader.bitOffset == start + 9 <= 8 * |reader.source|
    requires ReadBits(Stream(reader.source), start, 9) == Ok(code) && code >= 0x100 && code != END_CODE
    modifies reader`bitOffset, destination
    ensures
      var whole := Decode(Stream(reader.source), start, old(destination[..written]), destination.Length);
      match r
      case Err(e) => whole == Err(e)
      case Ok(end) =>
        (&& end <= destination.Length && start < reader.bitOffset <= 8 * |reader.source|
         && whole == Decode(Stream(reader.source), reader.bitOffset, destination[..end], destination.Length))
  {
    hide DecodeLength, CopyBack, ValueOf;
    var offset := ReadOffset(reader, code);
    if offset.Err? {
      return Err(offset.error);
    }
    if offset.value == 0 || offset.value > written {
      return Err(InvalidOffset);
    }
    var length := ReadLength(reader, destination.Length - written);
    if length.Err? {
      return Err(length.error);
    }
    if length.value > destination.Length - written {
      return Err(OutputFull);
    }
    CopyMatch(destination, written, offset.value, length.value);
    return Ok(written + length.value);
  }

  /** decompressLZS. */
  method Decompress(destination: array<Byte>, source: seq<Byte>) returns (r: Decoded<nat>)
    modifies destination
    ensures match Decode(Stream(source), 0, [], destination.Length)
            case Err(e) => r == Err(e)
            case Ok(out) => r == Ok(|out|) && |out| <= destination.Length && destination[..|out|] == out
  {
    var reader := new BitReader(source);
    var written: nat := 0;
    ghost var bits := Stream(source);
    while true
      invariant fresh(reader) && reader.source == source
      invariant reader.bitOffset <= |bits| && written <= destination.Length
      invariant Decode(bits, 0, [], destination.Length)
             == Decode(bits, reader.bitOffset, destination[..written], destination.Length)
      decreases |bits| - reader.bitOffset
    {
      ghost var start, text := reader.bitOffset, destination[..written];
      var code := reader.Read(9);
      if code.Err? {
        return Err(code.error);
      }
      if code.value < 0x100 {
        if written >= destination.Length {
          return Err(OutputFull);
        }
        destination[written] := code.value;
        written := written + 1;
        assert destination[..written] == text + [code.value];
      } else if code.value == END_CODE {
        return Ok(written);
      } else {
        var end := ReadMatch(reader, start, code.value, destination, written);
        if end.Err? {
          return Err(end.error);
        }
        written := end.value;
      }
    }
  }
}
