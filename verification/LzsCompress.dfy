/** lzsCompressor and lzsBitWriter as they run: hash tables reused from call to call,
    a buffer written bit by bit. The result is proved to be the parse of LzsParse. */
module LzsCompress {
  import opened Bytes
  import opened Bits
  import opened LzsFormat
  import opened LzsParse

  const HASH_SIZE := 65536
  const INVALID := 0xffff
  const MAXIMUM_INPUT := 65536

  type Index = x: int | 0 <= x < 65536

  datatype CompressError = InputTooLong | DestinationFull

  // ---------------------------------------------------------------- bit writer

  class BitWriter {
    const destination: array<Byte>
    var bitOffset: nat

    ghost predicate Valid()
      reads this
    {
      bitOffset <= 8 * destination.Length
    }

    /** The bits written so far. */
    ghost function Written(): (r: BitString)
      requires Valid()
      reads this, destination
      ensures |r| == bitOffset
    {
      Stream(destination[..])[..bitOffset]
    }

    constructor (destination: array<Byte>)
      ensures Valid() && this.destination == destination && Written() == []
    {
      this.destination := destination;
      bitOffset := 0;
    }

    /** Appends a field, or fails and changes nothing. */
    method Write(value: nat, bitCount: int) returns (ok: bool)
      requires Valid()
      modifies this`bitOffset, destination
      ensures Valid()
      ensures ok == (0 <= bitCount <= 32 && old(bitOffset) + bitCount <= 8 * destination.Length)
      ensures Written() == if ok then old(Written()) + BitsOf(value, bitCount) else old(Written())
      ensures !ok ==> destination[..] == old(destination[..])
    {
      if bitCount < 0 || bitCount > 32 || bitOffset + bitCount > destination.Length * 8 {
        return false;
      }
      ghost var start := Written();
      for i := bitCount downto 0
        invariant bitOffset + i == |start| + bitCount && Valid()
        invariant Written() == start + BitsOf(value, bitCount)[..bitCount - i]
      {
        ghost var before, data := Written(), destination[..];
        var byteIndex := bitOffset / 8;
        var bitIndex := 7 - bitOffset % 8;
        var mask := Pow2(bitIndex);
        ByteMask(destination[byteIndex], bitIndex);
        MaskTest(value, i);
        if And(value, Pow2(i)) != 0 {
          destination[byteIndex] := Or(destination[byteIndex], mask);
        } else {
          destination[byteIndex] := AndNot(destination[byteIndex], mask);
        }
        StreamUpdate(data, bitOffset, Bit(value, i), destination[..]);
        bitOffset := bitOffset + 1;
        assert Written() == before + [Bit(value, i)];
        assert BitsOf(value, bitCount)[..bitCount - i] == BitsOf(value, bitCount)[..bitCount - i - 1] + [Bit(value, i)];
      }
      assert BitsOf(value, bitCount)[..bitCount] == BitsOf(value, bitCount);
      return true;
    }
  }

  lemma ByteMask(b: Byte, i: nat)
    requires i < 8
    ensures Or(b, Pow2(i)) < 256 && AndNot(b, Pow2(i)) < 256
  {
    Pow2Monotone(i, 7);
    assert Pow2(7) == 128 && Pow2(8) == 256;
    BitwiseBounds(b, Pow2(i), 8);
  }

  /** Setting or clearing one bit of one byte changes that bit of the stream only. */
  lemma StreamUpdate(data: seq<Byte>, k: nat, v: bool, data': seq<Byte>)
    requires k < 8 * |data| && |data'| == |data|
    requires var mask := Pow2(7 - k % 8); var b := data[k / 8];
             data' == data[..k / 8] + [data'[k / 8]] + data[k / 8 + 1..] &&
             data'[k / 8] == if v then Or(b, mask) else AndNot(b, mask)
    ensures Stream(data') == Stream(data)[k := v]
  {
    forall j | 0 <= j < 8 * |data| ensures StreamBit(data', j) == if j == k then v else StreamBit(data, j) {
      if j / 8 == k / 8 {
        BitOfOr(data[k / 8], Pow2(7 - k % 8), 7 - j % 8);
        BitOfAndNot(data[k / 8], Pow2(7 - k % 8), 7 - j % 8);
        BitOfPow2(7 - k % 8, 7 - j % 8);
      }
    }
  }

  // ---------------------------------------------------------------- matches

  /** writeLZSMatch. */
  method WriteMatch(writer: BitWriter, offset: nat, length: nat) returns (ok: bool)
    requires writer.Valid() && 1 <= offset < WINDOW && length >= 2
    modifies writer`bitOffset, writer.destination
    ensures writer.Valid()
    ensures ok == (old(writer.bitOffset) + |TokenBits(MatchToken(offset, length))| <= 8 * writer.destination.Length)
    ensures ok ==> writer.Written() == old(writer.Written()) + TokenBits(MatchToken(offset, length))
  {
    ghost var start := writer.Written();
    ghost var field := OffsetBits(offset, offset >= 0x80);
    if offset < 0x80 {
      ok := writer.Write(0x180 + offset, 9);
    } else {
      ok := writer.Write(0x1000 + offset, 13);
    }
    if !ok {
      return;
    }
    ok := WriteLength(writer, length);
    AppendAssociates(start, field, LengthBits(length));
  }

  /** The length field: groups of four bits from length + 7, two at a time. */
  method WriteLength(writer: BitWriter, length: nat) returns (ok: bool)
    requires writer.Valid() && length >= 2
    modifies writer`bitOffset, writer.destination
    ensures writer.Valid()
    ensures ok == (old(writer.bitOffset) + |LengthBits(length)| <= 8 * writer.destination.Length)
    ensures ok ==> writer.Written() == old(writer.Written()) + LengthBits(length)
  {
    if length < 5 {
      ok := writer.Write(length - 2, 2);
      return;
    }
    if length < 8 {
      ok := writer.Write(length + 7, 4);
      return;
    }
    ghost var start := writer.Written();
    var remaining := length + 7;
    while remaining >= 30
      invariant writer.Valid() && writer.Written() + ExtensionBits(remaining) == start + LengthBits(length)
    {
      ghost var before := writer.Written();
      ExtensionPair(remaining);
      AppendAssociates(before, BitsOf(0xff, 8), ExtensionBits(remaining - 30));
      ok := writer.Write(0xff, 8);
      if !ok {
        return;
      }
      remaining := remaining - 30;
    }
    if remaining >= 15 {
      ExtensionPairEnd(remaining);
      ok := writer.Write(0xf0 + remaining - 15, 8);
      return;
    }
    ok := writer.Write(remaining, 4);
  }

  lemma ExtensionPair(extra: nat)
    requires extra >= 30
    ensures ExtensionBits(extra) == BitsOf(0xff, 8) + ExtensionBits(extra - 30)
  {
    SplitField(15, 15, 4, 4);
    assert Pow2(4) == 16;
    AppendAssociates(BitsOf(15, 4), BitsOf(15, 4), ExtensionBits(extra - 30));
  }

  lemma ExtensionPairEnd(extra: nat)
    requires 15 <= extra < 30
    ensures ExtensionBits(extra) == BitsOf(0xf0 + extra - 15, 8)
  {
    assert Pow2(4) == 16;
    SplitField(15, extra - 15, 4, 4);
  }

  // ---------------------------------------------------------------- hash chains

  /** lzsHash: the two bytes at a position as one number. */
  function Hash(s: seq<Byte>, p: nat): Index
    requires p + 2 <= |s|
  {
    var high: int := s[p];
    256 * high + s[p + 1]
  }

  /** The last position below m with hash h, or INVALID: what a fresh, complete and
      unbounded index would answer. */
  function Previous(s: seq<Byte>, h: Index, m: nat): (r: Index)
    requires m == 0 || m + 1 <= |s|
    requires m <= INVALID
    ensures r < m || r == INVALID
    ensures r < m ==> Hash(s, r) == h
  {
    if m == 0 then INVALID
    else if Hash(s, m - 1) == h then m - 1
    else Previous(s, h, m - 1)
  }

  /** The position before c with the hash of c: what the chain holds for c. */
  function Link(s: seq<Byte>, c: nat): Index
    requires c + 2 <= |s| && c <= INVALID
  {
    Previous(s, Hash(s, c), c)
  }

  lemma {:induction false} PreviousIsLast(s: seq<Byte>, h: Index, m: nat, c: nat)
    requires m + 1 <= |s| && m <= INVALID && c < m
    requires Hash(s, c) == h
    ensures Previous(s, h, m) < m && c <= Previous(s, h, m)
  {
    if c < m - 1 && Hash(s, m - 1) != h {
      PreviousIsLast(s, h, m - 1, c);
    }
  }

  /** Equal hashes are matches of two bytes. */
  lemma HashMeansMatch(s: seq<Byte>, c: nat, p: nat)
    requires c < p && p + 2 <= |s|
    ensures Hash(s, c) == Hash(s, p) <==> MatchLength(s, c, p) >= 2
  {
    assert MatchLength(s, c + 1, p + 1) >= 1 <==> s[c + 1] == s[p + 1];
  }

  ghost predicate TableIndexes(table: seq<Index>, s: seq<Byte>, m: nat)
    requires m == 0 || m + 1 <= |s|
    requires m <= INVALID
  {
    |table| == HASH_SIZE && forall h :: 0 <= h < HASH_SIZE ==> table[h] == Previous(s, h, m)
  }

  ghost predicate ChainIndexes(chain: seq<Index>, s: seq<Byte>, m: nat)
    requires m == 0 || m + 1 <= |s|
    requires m <= INVALID
  {
    && |chain| == WINDOW
    && forall c {:trigger Link(s, c)} :: 0 <= c < m && m <= c + WINDOW ==> chain[c % WINDOW] == Link(s, c)
  }

  lemma TableStep(table: seq<Index>, s: seq<Byte>, p: nat)
    requires p + 2 <= |s| && p < INVALID && TableIndexes(table, s, p)
    ensures TableIndexes(table[Hash(s, p) := p], s, p + 1)
  {
  }

  lemma ChainStep(chain: seq<Index>, s: seq<Byte>, p: nat)
    requires p + 2 <= |s| && p < INVALID && ChainIndexes(chain, s, p)
    ensures ChainIndexes(chain[p % WINDOW := Link(s, p)], s, p + 1)
  {
    var chain' := chain[p % WINDOW := Link(s, p)];
    forall c | 0 <= c < p && p + 1 <= c + WINDOW
      ensures chain'[c % WINDOW] == Link(s, c)
    {
      SlotsDiffer(c, p);
    }
  }

  class Compressor {
    const hashTable: array<Index>
    const hashChain: array<Index>

    constructor ()
      ensures Shaped() && fresh(hashTable) && fresh(hashChain)
    {
      hashTable := new Index[HASH_SIZE];
      hashChain := new Index[WINDOW];
    }

    ghost predicate Shaped() {
      hashTable.Length == HASH_SIZE && hashChain.Length == WINDOW && hashTable != hashChain
    }

    /** Positions below m are indexed: the table is right everywhere, and the chain in
        every slot that a later position has not taken over. Nothing is said about the
        other slots, which may hold anything an earlier call left there. */
    ghost predicate Indexed(s: seq<Byte>, m: nat)
      requires m == 0 || m + 1 <= |s|
      requires m <= INVALID
      requires Shaped()
      reads hashTable, hashChain
    {
      TableIndexes(hashTable[..], s, m) && ChainIndexes(hashChain[..], s, m)
    }

    /** Clears the table; the chain keeps its old contents. */
    method Reset(ghost s: seq<Byte>)
      requires Shaped()
      modifies hashTable
      ensures Indexed(s, 0)
    {
      for i := 0 to hashTable.Length
        invariant forall h :: 0 <= h < i ==> hashTable[h] == INVALID
      {
        hashTable[i] := INVALID;
      }
    }

    /** Indexes position p and returns the position its hash last had. */
    method Insert(s: seq<Byte>, p: nat) returns (previous: Index)
      requires Shaped() && p + 2 <= |s| && p < INVALID && Indexed(s, p)
      modifies hashTable, hashChain
      ensures previous == Link(s, p)
      ensures Indexed(s, p + 1)
    {
      var hash := Hash(s, p);
      previous := hashTable[hash];
      TableStep(hashTable[..], s, p);
      ChainStep(hashChain[..], s, p);
      ghost var table: seq<int>, chain: seq<int> := hashTable[..], hashChain[..];
      hashChain[p % WINDOW] := previous;
      hashTable[hash] := p;
      assert hashTable[..] == table[hash := p] && hashChain[..] == chain[p % WINDOW := previous];
    }

    /** compress: whatever the tables held, it writes the compressed form of the source,
        and fails exactly when the source is too long or the form does not fit. */
    method Compress(destination: array<Byte>, source: seq<Byte>) returns (r: Result<nat, CompressError>)
      requires Shaped() && destination as object != hashTable && destination as object != hashChain
      modifies hashTable, hashChain, destination
      ensures r.Err? <==> |source| > MAXIMUM_INPUT || |Encoded(source)| + 16 > 8 * destination.Length
      ensures r.Err? ==> r.error == if |source| > MAXIMUM_INPUT then InputTooLong else DestinationFull
      ensures r.Ok? ==> r.value == (|Encoded(source)| + 16) / 8
      ensures r.Ok? ==> Stream(destination[..])[..|Encoded(source)| + 16] == Encoded(source) + EndField()
    {
      if |source| > MAXIMUM_INPUT {
        return Err(InputTooLong);
      }
      Reset(source);
      var writer := new BitWriter(destination);
      assert [] + Remaining(source, 0, 0) == Encoded(source);
      var position: nat, limit: nat := 0, 0;
      while position + 2 < |source|
        invariant writer.destination == destination && fresh(writer) && writer.Valid()
        invariant limit <= position <= |source| && (position + 2 < |source| ==> limit == position)
        invariant (limit == 0 || limit + 1 <= |source|) && limit <= INVALID && Indexed(source, limit)
        invariant writer.Written() + Remaining(source, position, limit) == Encoded(source)
        decreases |source| - position
      {
        var ok;
        ok, position, limit := EmitToken(writer, source, position);
        if !ok {
          return Err(DestinationFull);
        }
      }
      var ok := WriteTail(writer, source, position, limit);
      if !ok {
        return Err(DestinationFull);
      }
      ok := writer.Write(0xc000, 16);
      if !ok {
        return Err(DestinationFull);
      }
      return Ok(writer.bitOffset / 8);
    }

    /** One pass of the main loop: index the position, look for a match, write a token.
        Returns the next position and how many positions are indexed. */
    method EmitToken(writer: BitWriter, source: seq<Byte>, position: nat) returns (ok: bool, next: nat, limit: nat)
      requires Shaped() && position + 2 < |source| <= MAXIMUM_INPUT && Indexed(source, position)
      requires writer.Valid() && writer.destination as object != hashTable && writer.destination as object != hashChain
      modifies hashTable, hashChain, writer`bitOffset, writer.destination
      ensures writer.Valid()
      ensures position < next <= |source| && limit <= next && (next + 2 < |source| ==> limit == next)
      ensures limit + 1 <= |source| && Indexed(source, limit)
      ensures ok ==>
                writer.Written() + Remaining(source, next, limit)
                  == old(writer.Written()) + Remaining(source, position, position)
      ensures !ok ==> old(writer.bitOffset) + |Remaining(source, position, position)| > 8 * writer.destination.Length
    {
      hide Remaining, TokenBits, Previous, TableIndexes, ChainIndexes;
      var first := Insert(source, position);
      if first == INVALID || first + WINDOW <= position {
        ok := EmitLiteral(writer, source, position);
        next, limit := position + 1, position + 1;
      } else {
        ok, next := EmitMatch(writer, source, position, first);
        limit := IndexMatch(source, position, next);
      }
    }

    method EmitLiteral(writer: BitWriter, source: seq<Byte>, position: nat) returns (ok: bool)
      requires position + 2 < |source| <= MAXIMUM_INPUT && writer.Valid()
      requires Link(source, position) == INVALID || Link(source, position) + WINDOW <= position
      modifies writer`bitOffset, writer.destination
      ensures writer.Valid()
      ensures ok ==>
                writer.Written() + Remaining(source, position + 1, position + 1)
                  == old(writer.Written()) + Remaining(source, position, position)
      ensures !ok ==> old(writer.bitOffset) + |Remaining(source, position, position)| > 8 * writer.destination.Length
    {
      hide Remaining, TokenBits, Previous;
      NoMatch(source, position);
      AppendAssociates(writer.Written(), BitsOf(source[position], 9), Remaining(source, position + 1, position + 1));
      ok := writer.Write(source[position], 9);
    }

    /** Indexes the bytes of a match, unless it reaches the end of the source. */
    method IndexMatch(source: seq<Byte>, position: nat, next: nat) returns (limit: nat)
      requires Shaped() && position + 2 <= next <= |source| <= MAXIMUM_INPUT && position + 2 < |source|
      requires Indexed(source, position + 1)
      modifies hashTable, hashChain
      ensures limit == AfterLimit(source, position, next - position) && limit + 1 <= |source| && Indexed(source, limit)
    {
      limit := position + 1;
      if next + 2 < |source| {
        InsertRange(source, limit, next);
        limit := next;
      }
    }

    method EmitMatch(writer: BitWriter, source: seq<Byte>, position: nat, first: Index) returns (ok: bool, next: nat)
      requires Shaped() && position + 2 < |source| <= MAXIMUM_INPUT && Indexed(source, position + 1)
      requires first == Link(source, position) && first != INVALID && first + WINDOW > position
      requires writer.Valid() && writer.destination as object != hashTable && writer.destination as object != hashChain
      modifies writer`bitOffset, writer.destination
      ensures writer.Valid() && position + 2 <= next <= |source|
      ensures ok ==>
                writer.Written() + Remaining(source, next, AfterLimit(source, position, next - position))
                  == old(writer.Written()) + Remaining(source, position, position)
      ensures !ok ==> old(writer.bitOffset) + |Remaining(source, position, position)| > 8 * writer.destination.Length
    {
      hide Remaining, TokenBits, Previous, MatchLength;
      var q, length := LongestMatch(hashChain, source, position, first);
      MatchEncodes(source, position, q);
      next := position + length;
      AppendAssociates(writer.Written(), TokenBits(MatchToken(position - q, length)),
                       Remaining(source, next, AfterLimit(source, position, length)));
      ok := WriteMatch(writer, position - q, length);
    }

    /** The last two bytes or fewer. */
    method WriteTail(writer: BitWriter, source: seq<Byte>, position: nat, limit: nat) returns (ok: bool)
      requires Shaped() && limit <= position <= |source| <= position + 2 && limit <= INVALID
      requires limit == 0 || limit + 1 <= |source|
      requires |source| <= MAXIMUM_INPUT && Indexed(source, limit)
      requires writer.Valid() && writer.destination as object != hashTable && writer.destination as object != hashChain
      modifies writer`bitOffset, writer.destination
      ensures writer.Valid()
      ensures ok == (old(writer.bitOffset) + |Remaining(source, position, limit)| <= 8 * writer.destination.Length)
      ensures ok ==> writer.Written() == old(writer.Written()) + Remaining(source, position, limit)
    {
      hide Remaining, LengthBits, OffsetBits, Previous, BitsOf;
      ok := true;
      if position + 2 == |source| {
        var candidate := hashTable[Hash(source, position)];
        TailSearch(source, position, limit);
        if candidate != INVALID && candidate + WINDOW > position {
          ok := WriteMatch(writer, position - candidate, 2);
        } else {
          ghost var before := writer.Written();
          AppendAssociates(before, BitsOf(source[position], 9), BitsOf(source[position + 1], 9));
          ok := writer.Write(source[position], 9);
          if ok {
            ok := writer.Write(source[position + 1], 9);
          }
        }
      } else if position + 1 == |source| {
        TailOne(source, position, limit);
        ok := writer.Write(source[position], 9);
      } else {
        TailNone(source, position, limit);
        assert writer.Written() == old(writer.Written()) + [];
      }
    }

    method InsertRange(s: seq<Byte>, from: nat, to: nat)
      requires Shaped() && from <= to && to + 1 <= |s| && to <= INVALID && Indexed(s, from)
      modifies hashTable, hashChain
      ensures Indexed(s, to)
    {
      for p := from to to
        invariant Indexed(s, p)
      {
        var _ := Insert(s, p);
      }
    }
  }

  /** Two positions less than a window apart never share a slot of the chain. */
  lemma SlotsDiffer(c: nat, p: nat)
    requires c < p < c + WINDOW
    ensures c % WINDOW != p % WINDOW
  {
  }

  // ---------------------------------------------------------------- match search

  /** (q, length) is the best of the candidates from bound on, or the first candidate,
      not yet measured. */
  ghost predicate Leading(s: seq<Byte>, p: nat, bound: nat, q: nat, length: nat)
    requires bound <= p && p + 2 <= |s|
  {
    && Candidate(s, p, p, q)
    && (if q < bound then length == 2 else length == MatchLength(s, q, p))
    && forall c: nat :: bound <= c && Candidate(s, p, p, c) ==>
         q >= bound && (MatchLength(s, c, p) < length || (MatchLength(s, c, p) == length && c <= q))
  }

  /** Nothing between the next link of the chain and bound is a candidate. */
  lemma NoCandidateSkipped(s: seq<Byte>, p: nat, bound: nat, c: nat)
    requires bound <= p && p + 2 <= |s| && p < INVALID
    requires c < bound && Candidate(s, p, p, c)
    ensures Previous(s, Hash(s, p), bound) < bound && c <= Previous(s, Hash(s, p), bound)
  {
    HashMeansMatch(s, c, p);
    PreviousIsLast(s, Hash(s, p), bound, c);
  }

  /** Measuring the candidate at c moves the bound down to it. */
  lemma MeasuredCandidate(s: seq<Byte>, p: nat, bound: nat, q: nat, length: nat, c: nat)
    requires bound <= p && p + 2 <= |s| && p < INVALID
    requires Leading(s, p, bound, q, length) && (q < bound ==> q == c)
    requires c < bound && c == Previous(s, Hash(s, p), bound) && c + WINDOW > p
    ensures MatchLength(s, c, p) > length ==> Leading(s, p, c, c, MatchLength(s, c, p))
    ensures MatchLength(s, c, p) <= length ==> Leading(s, p, c, q, length)
  {
    HashMeansMatch(s, c, p);
    assert Candidate(s, p, p, c);
    forall d: nat | c <= d && Candidate(s, p, p, d) ensures d == c || bound <= d {
      if d < bound {
        NoCandidateSkipped(s, p, bound, d);
      }
    }
  }

  /** The walk is over: no candidate is left, or none can be longer. */
  lemma WalkEnds(s: seq<Byte>, p: nat, bound: nat, q: nat, length: nat)
    requires bound <= p && p + 2 <= |s| && p < INVALID
    requires Leading(s, p, bound, q, length) && q >= bound
    requires var c := Previous(s, Hash(s, p), bound);
             c == INVALID || c + WINDOW <= p || p + length == |s|
    ensures IsBest(s, p, p, q)
  {
    forall c: nat | Candidate(s, p, p, c)
      ensures MatchLength(s, c, p) < length || (MatchLength(s, c, p) == length && c <= q)
    {
      if c < bound {
        NoCandidateSkipped(s, p, bound, c);
      }
    }
  }

  lemma SliceOfSlice(s: seq<Byte>, a: nat, b: nat, i: nat, j: nat)
    requires a <= b <= |s| && i <= j <= b - a
    ensures s[a..b][i..j] == s[a + i..a + j]
  {
    forall k | 0 <= k < j - i ensures s[a..b][i..j][k] == s[a + i..a + j][k] {
      assert s[a..b][i..j][k] == s[a..b][i + k] == s[a + (i + k)];
    }
  }

  lemma EqualSlices(s: seq<Byte>, c: nat, p: nat, length: nat)
    requires c < p && length >= 2 && p + length + 1 <= |s| && Hash(s, c) == Hash(s, p)
    requires s[c + 2..c + length + 1] == s[p + 2..p + length + 1]
    ensures MatchLength(s, c, p) > length
  {
    assert s[c..c + length + 1] == [s[c], s[c + 1]] + s[c + 2..c + length + 1];
    assert s[p..p + length + 1] == [s[p], s[p + 1]] + s[p + 2..p + length + 1];
    MatchAtLeast(s, c, p, length + 1);
  }

  /** The comparison of bytes 2 to length is the test for a longer match. */
  lemma LongerTest(s: seq<Byte>, c: nat, p: nat, length: nat)
    requires c < p && p + 2 <= |s| && length >= 2 && Hash(s, c) == Hash(s, p)
    ensures MatchLength(s, c, p) > length
       <==> p + length + 1 <= |s| && s[c + 2..c + length + 1] == s[p + 2..p + length + 1]
  {
    var r := MatchLength(s, c, p);
    MatchAgrees(s, c, p);
    if r > length {
      SliceOfSlice(s, c, c + r, 2, length + 1);
      SliceOfSlice(s, p, p + r, 2, length + 1);
    }
    if p + length + 1 <= |s| && s[c + 2..c + length + 1] == s[p + 2..p + length + 1] {
      EqualSlices(s, c, p, length);
    }
  }

  /** The tests of the inner loop, on one candidate: the bytes up to the current best
      length first, then byte by byte. Returns the new best length, or length itself. */
  method Measure(s: seq<Byte>, p: nat, c: nat, length: nat) returns (better: nat)
    requires c < p && p + 2 <= |s| && length >= 2 && Hash(s, c) == Hash(s, p)
    ensures better == if MatchLength(s, c, p) > length then MatchLength(s, c, p) else length
  {
    better := length;
    var currentEnd := p + length + 1;
    var candidateEnd := c + length + 1;
    LongerTest(s, c, p, length);
    if currentEnd <= |s| && candidateEnd <= |s| && s[c + 2..candidateEnd] == s[p + 2..currentEnd] {
      better := length + 1;
      MatchAgrees(s, c, p);
      ghost var r := MatchLength(s, c, p);
      while p + better < |s| && s[p + better] == s[c + better]
        invariant length < better <= r
      {
        better := better + 1;
      }
      MatchAgreesAt(s, c, p, better);
    }
  }

  /** Follows the chain from the first candidate and keeps the longest match. Each link
      was written in this call by an earlier position of the same hash. */
  method LongestMatch(chain: array<Index>, s: seq<Byte>, p: nat, first: Index) returns (q: nat, length: nat)
    requires p + 2 <= |s| && p < INVALID && ChainIndexes(chain[..], s, p + 1)
    requires first == Previous(s, Hash(s, p), p) && first != INVALID && first + WINDOW > p
    ensures IsBest(s, p, p, q) && length == MatchLength(s, q, p)
  {
    length, q := 2, first;
    var candidate := first;
    ghost var bound: nat := p;
    FirstCandidate(s, p);
    while candidate != INVALID && candidate + WINDOW > p
      invariant bound <= p && candidate == Previous(s, Hash(s, p), bound)
      invariant Leading(s, p, bound, q, length)
      invariant q < bound ==> q == candidate
      decreases bound
    {
      var better := Measure(s, p, candidate, length);
      MeasuredCandidate(s, p, bound, q, length, candidate);
      bound := candidate;
      if better > length {
        q, length := candidate, better;
        if p + length == |s| {
          break;
        }
      }
      ChainLink(chain[..], s, p, candidate);
      candidate := chain[candidate % WINDOW];
    }
    WalkEnds(s, p, bound, q, length);
  }

  lemma FirstCandidate(s: seq<Byte>, p: nat)
    requires p + 2 <= |s| && p < INVALID
    requires var first := Previous(s, Hash(s, p), p); first != INVALID && first + WINDOW > p
    ensures Leading(s, p, p, Previous(s, Hash(s, p), p), 2)
  {
    HashMeansMatch(s, Previous(s, Hash(s, p), p), p);
  }

  lemma ChainLink(chain: seq<Index>, s: seq<Byte>, p: nat, c: nat)
    requires p + 2 <= |s| && p < INVALID && ChainIndexes(chain, s, p + 1)
    requires c < p < c + WINDOW && Hash(s, c) == Hash(s, p)
    ensures chain[c % WINDOW] == Previous(s, Hash(s, p), c)
  {
    assert chain[c % WINDOW] == Link(s, c);
  }

  // ---------------------------------------------------------------- the output

  /** The bits still to come at p with the positions below limit indexed. */
  ghost function Remaining(s: seq<Byte>, p: nat, limit: nat): BitString
    requires limit <= p <= |s|
  {
    if p + 2 >= |s| then EncodeTokens(ParseTail(s, p, limit), p) else EncodeTokens(Parse(s, p), p)
  }

  function AfterLimit(s: seq<Byte>, p: nat, length: nat): nat {
    if p + length + 2 < |s| then p + length else p + 1
  }

  lemma EncodePrepended(t: Token, rest: seq<Token>, p: nat)
    requires Encodable(t, p) && AllEncodable(rest, p + TokenLength(t))
    ensures AllEncodable([t] + rest, p)
    ensures EncodeTokens([t] + rest, p) == TokenBits(t) + EncodeTokens(rest, p + TokenLength(t))
  {
    assert ([t] + rest)[1..] == rest;
  }

  lemma EncodeOne(t: Token, p: nat)
    requires Encodable(t, p)
    ensures AllEncodable([t], p) && EncodeTokens([t], p) == TokenBits(t)
  {
    EncodePrepended(t, [], p);
    assert [t] + [] == [t] && TokenBits(t) + [] == TokenBits(t);
  }

  /** The table found nothing in the window: the parse has a literal here. */
  lemma NoMatch(s: seq<Byte>, p: nat)
    requires p + 2 < |s| && p < INVALID
    requires Link(s, p) == INVALID || Link(s, p) + WINDOW <= p
    ensures Remaining(s, p, p) == BitsOf(s[p], 9) + Remaining(s, p + 1, p + 1)
  {
    BestIsBest(s, p, p);
    if Best(s, p, p).Some? {
      NoCandidateSkipped(s, p, p, Best(s, p, p).value);
      assert false;
    }
    EncodePrepended(Literal(s[p]), Parse(s, p + 1), p);
  }

  /** The longest match is the token of the parse. */
  lemma MatchEncodes(s: seq<Byte>, p: nat, q: nat)
    requires p + 2 < |s| && IsBest(s, p, p, q)
    ensures var length := MatchLength(s, q, p);
            Remaining(s, p, p) == TokenBits(MatchToken(p - q, length))
                                + Remaining(s, p + length, AfterLimit(s, p, length))
  {
    BestIsUnique(s, p, p, q);
    MatchParsed(s, p, q);
  }

  lemma MatchParsed(s: seq<Byte>, p: nat, q: nat)
    requires p + 2 < |s| && Best(s, p, p) == Some(q)
    ensures var length := MatchLength(s, q, p);
            Remaining(s, p, p) == TokenBits(MatchToken(p - q, length))
                                + Remaining(s, p + length, AfterLimit(s, p, length))
  {
    hide TokenBits, Best;
    var length := MatchLength(s, q, p);
    assert Parse(s, p) == [MatchToken(p - q, length)] + AfterMatch(s, p, length);
    EncodePrepended(MatchToken(p - q, length), AfterMatch(s, p, length), p);
  }

  /** With two bytes left the hash table alone finds the best match. */
  lemma TailBest(s: seq<Byte>, p: nat, limit: nat)
    requires limit <= p && p + 2 == |s| && p < INVALID
    ensures var c := Previous(s, Hash(s, p), limit);
            Best(s, p, limit) == if c != INVALID && c + WINDOW > p then Some(c) else None
  {
    var c := Previous(s, Hash(s, p), limit);
    forall d: nat | Candidate(s, p, limit, d) ensures d <= c < limit {
      assert Candidate(s, p, p, d);
      NoCandidateSkipped(s, p, limit, d);
    }
    BestIsBest(s, p, limit);
    if c != INVALID && c + WINDOW > p {
      HashMeansMatch(s, c, p);
      assert Candidate(s, p, limit, c);
    }
  }

  lemma TailSearch(s: seq<Byte>, p: nat, limit: nat)
    requires limit <= p && p + 2 == |s| && p < INVALID
    ensures var c := Previous(s, Hash(s, p), limit);
            Remaining(s, p, limit) ==
              if c != INVALID && c + WINDOW > p then TokenBits(MatchToken(p - c, 2))
              else BitsOf(s[p], 9) + BitsOf(s[p + 1], 9)
  {
    hide LengthBits, OffsetBits, Best, MatchLength, Remaining, TokenBits;
    TailBest(s, p, limit);
    match Best(s, p, limit)
    case Some(c) =>
      TailMatch(s, p, limit, c);
    case None =>
      TailLiterals(s, p, limit);
  }

  lemma TailMatch(s: seq<Byte>, p: nat, limit: nat, c: nat)
    requires limit <= p && p + 2 == |s| && Best(s, p, limit) == Some(c)
    ensures Remaining(s, p, limit) == TokenBits(MatchToken(p - c, 2))
  {
    hide Best, MatchLength, LengthBits, OffsetBits;
    EncodeOne(MatchToken(p - c, 2), p);
  }

  lemma TailLiterals(s: seq<Byte>, p: nat, limit: nat)
    requires limit <= p && p + 2 == |s| && Best(s, p, limit) == None
    ensures Remaining(s, p, limit) == BitsOf(s[p], 9) + BitsOf(s[p + 1], 9)
  {
    hide Best, MatchLength, BitsOf;
    EncodeOne(Literal(s[p + 1]), p + 1);
    EncodePrepended(Literal(s[p]), [Literal(s[p + 1])], p);
  }

  lemma TailOne(s: seq<Byte>, p: nat, limit: nat)
    requires limit <= p && p + 1 == |s|
    ensures Remaining(s, p, limit) == BitsOf(s[p], 9)
  {
    EncodeOne(Literal(s[p]), p);
  }

  lemma TailNone(s: seq<Byte>, p: nat, limit: nat)
    requires limit <= p == |s|
    ensures Remaining(s, p, limit) == []
  {
  }
}
