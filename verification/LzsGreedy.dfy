/** Which token stream compress writes, said of the bytes alone: at every position the
    longest earlier match, the nearest of the longest, in the shorter offset form; and only
    one token list is like that. */
module LzsGreedy {
  import opened Bytes
  import opened Bits
  import opened LzsFormat
  import opened LzsParse

  /** The text at c agrees with the text at p for length bytes. */
  predicate Repeats(s: seq<Byte>, c: nat, p: nat, length: nat) {
    c <= p && p + length <= |s| && s[c..c + length] == s[p..p + length]
  }

  /** A match of length bytes at p: indexed before limit and less than 2048 back. */
  predicate Available(s: seq<Byte>, p: nat, limit: nat, c: nat, length: nat) {
    c < limit && p < c + 2048 && length >= 2 && Repeats(s, c, p, length)
  }

  /** t is the token for position p: a literal if nothing is available, otherwise the
      longest match, none nearer being as long; nine-bit form exactly for offsets to 127. */
  ghost predicate Chosen(s: seq<Byte>, p: nat, limit: nat, t: Token)
    requires p < |s|
  {
    match t
    case Literal(value) => value == s[p] && forall c: nat, n: nat :: !Available(s, p, limit, c, n)
    case Match(offset, length, wide) =>
      && 1 <= offset <= p && Available(s, p, limit, p - offset, length)
      && (forall c: nat, n: nat :: Available(s, p, limit, c, n) ==> n < length || (n == length && p - offset >= c))
      && (wide <==> offset >= 128)
  }

  /** How many positions are indexed when position `next` is reached after position p: all
      before it while three bytes are left; then no more than p itself, and nothing new in
      the tail. */
  function NextLimit(s: seq<Byte>, p: nat, limit: nat, next: nat): nat {
    if next + 2 < |s| then next else if p + 2 < |s| then p + 1 else limit
  }

  /** tokens cover the text from p on, and each is the chosen one. */
  ghost predicate Greedy(s: seq<Byte>, p: nat, limit: nat, tokens: seq<Token>)
    requires p <= |s|
    decreases |tokens|
  {
    if tokens == [] then p == |s|
    else
      && p + TokenLength(tokens[0]) <= |s| && p < |s| && Chosen(s, p, limit, tokens[0])
      && Greedy(s, p + TokenLength(tokens[0]), NextLimit(s, p, limit, p + TokenLength(tokens[0])), tokens[1..])
  }

  // ---------------------------------------------------------------- against the search

  lemma RepeatsMeasured(s: seq<Byte>, c: nat, p: nat, length: nat)
    requires c <= p <= |s|
    ensures Repeats(s, c, p, length) <==> length <= MatchLength(s, c, p)
  {
    hide MatchLength;
    MatchAgrees(s, c, p);
    var r := MatchLength(s, c, p);
    if Repeats(s, c, p, length) {
      MatchAtLeast(s, c, p, length);
    }
    if length <= r {
      assert s[c..c + length] == s[c..c + r][..length] == s[p..p + r][..length] == s[p..p + length];
    }
  }

  lemma AvailableMeasured(s: seq<Byte>, p: nat, limit: nat, c: nat, length: nat)
    requires limit <= p <= |s|
    ensures Available(s, p, limit, c, length) <==>
              Candidate(s, p, limit, c) && 2 <= length <= MatchLength(s, c, p)
  {
    hide MatchLength;
    if c < limit {
      RepeatsMeasured(s, c, p, length);
    }
  }

  lemma NothingAvailable(s: seq<Byte>, p: nat, limit: nat)
    requires limit <= p < |s|
    ensures Best(s, p, limit).None? <==> forall c: nat, n: nat :: !Available(s, p, limit, c, n)
  {
    hide MatchLength, Best;
    BestIsBest(s, p, limit);
    if Best(s, p, limit).None? {
      forall c: nat, n: nat ensures !Available(s, p, limit, c, n) {
        AvailableMeasured(s, p, limit, c, n);
      }
    } else {
      AvailableMeasured(s, p, limit, Best(s, p, limit).value, 2);
    }
  }

  lemma BestIsChosen(s: seq<Byte>, p: nat, limit: nat, q: nat)
    requires limit <= p < |s| && Best(s, p, limit) == Some(q)
    ensures Chosen(s, p, limit, Match(p - q, MatchLength(s, q, p), p - q >= 128))
  {
    hide MatchLength, Best, Available;
    BestIsBest(s, p, limit);
    var length := MatchLength(s, q, p);
    AvailableMeasured(s, p, limit, q, length);
    forall c: nat, n: nat | Available(s, p, limit, c, n) ensures n < length || (n == length && q >= c) {
      AvailableMeasured(s, p, limit, c, n);
    }
  }

  lemma LiteralIsChosen(s: seq<Byte>, p: nat, limit: nat)
    requires limit <= p < |s| && (Best(s, p, limit).None? || p + 1 == |s|)
    ensures Chosen(s, p, limit, Literal(s[p]))
  {
    hide Best;
    if Best(s, p, limit).None? {
      NothingAvailable(s, p, limit);
    }
  }

  lemma GreedyNext(s: seq<Byte>, p: nat, limit: nat, t: Token, rest: seq<Token>)
    requires p + TokenLength(t) <= |s| && p < |s| && Chosen(s, p, limit, t)
    requires Greedy(s, p + TokenLength(t), NextLimit(s, p, limit, p + TokenLength(t)), rest)
    ensures Greedy(s, p, limit, [t] + rest)
  {
    hide Chosen;
    assert ([t] + rest)[1..] == rest;
  }

  lemma TailIsGreedy(s: seq<Byte>, p: nat, limit: nat)
    requires limit <= p <= |s| <= p + 2
    ensures Greedy(s, p, limit, ParseTail(s, p, limit))
  {
    hide Best, Chosen, Greedy;
    if p + 2 == |s| {
      match Best(s, p, limit)
      case Some(q) =>
        BestIsChosen(s, p, limit, q);
        PairMatches(s, q, p);
        GreedyEnds(s, limit);
        GreedyNext(s, p, limit, MatchToken(p - q, 2), []);
        assert [MatchToken(p - q, 2)] + [] == [MatchToken(p - q, 2)];
      case None =>
        LiteralIsChosen(s, p, limit);
        LastIsGreedy(s, limit);
        GreedyNext(s, p, limit, Literal(s[p]), [Literal(s[p + 1])]);
        assert [Literal(s[p])] + [Literal(s[p + 1])] == [Literal(s[p]), Literal(s[p + 1])];
    } else if p + 1 == |s| {
      LastIsGreedy(s, limit);
    } else {
      GreedyEnds(s, limit);
    }
  }

  lemma GreedyEnds(s: seq<Byte>, limit: nat)
    ensures Greedy(s, |s|, limit, [])
  {
  }

  lemma LastIsGreedy(s: seq<Byte>, limit: nat)
    requires limit <= |s| - 1
    ensures Greedy(s, |s| - 1, limit, [Literal(s[|s| - 1])])
  {
    hide Chosen;
    var p := |s| - 1;
    LiteralIsChosen(s, p, limit);
    GreedyNext(s, p, limit, Literal(s[p]), []);
    assert [Literal(s[p])] + [] == [Literal(s[p])];
  }

  /** The parse is greedy: every token of it, tail included, is the chosen one. */
  lemma {:induction false} ParseIsGreedy(s: seq<Byte>, p: nat)
    requires p <= |s|
    ensures Greedy(s, p, p, Parse(s, p))
    decreases |s| - p
  {
    hide Best, MatchLength, Chosen, Greedy, ParseTail;
    if p + 2 >= |s| {
      TailIsGreedy(s, p, p);
    } else {
      match Best(s, p, p)
      case None =>
        LiteralIsChosen(s, p, p);
        if p + 3 >= |s| {
          TailIsGreedy(s, p + 1, p + 1);
        } else {
          ParseIsGreedy(s, p + 1);
        }
        GreedyNext(s, p, p, Literal(s[p]), Parse(s, p + 1));
      case Some(q) =>
        var length := MatchLength(s, q, p);
        BestIsChosen(s, p, p, q);
        if p + length + 2 >= |s| {
          TailIsGreedy(s, p + length, p + 1);
        } else {
          ParseIsGreedy(s, p + length);
        }
        GreedyNext(s, p, p, MatchToken(p - q, length), AfterMatch(s, p, length));
    }
  }

  lemma ChosenIsOne(s: seq<Byte>, p: nat, limit: nat, t: Token, u: Token)
    requires p < |s| && Chosen(s, p, limit, t) && Chosen(s, p, limit, u)
    ensures t == u
  {
    hide Available;
    if t.Match? {
      assert Available(s, p, limit, p - t.offset, t.length);
    }
    if u.Match? {
      assert Available(s, p, limit, p - u.offset, u.length);
    }
  }

  /** And no other token list is: compress writes the only one. */
  lemma {:induction false} GreedyIsOne(s: seq<Byte>, p: nat, limit: nat, x: seq<Token>, y: seq<Token>)
    requires p <= |s| && Greedy(s, p, limit, x) && Greedy(s, p, limit, y)
    ensures x == y
    decreases |x|
  {
    hide Chosen;
    if x != [] && y != [] {
      ChosenIsOne(s, p, limit, x[0], y[0]);
      var next := p + TokenLength(x[0]);
      GreedyIsOne(s, next, NextLimit(s, p, limit, next), x[1..], y[1..]);
      assert x == [x[0]] + x[1..] && y == [y[0]] + y[1..];
    }
  }

  /** What is written is the encoding of the greedy list, for every source. */
  lemma EncodedIsGreedy(s: seq<Byte>, tokens: seq<Token>)
    requires Greedy(s, 0, 0, tokens)
    ensures AllEncodable(tokens, 0) && Encoded(s) == EncodeTokens(tokens, 0)
  {
    ParseIsGreedy(s, 0);
    GreedyIsOne(s, 0, 0, tokens, Parse(s, 0));
  }

  // ---------------------------------------------------------------- the format

  /** The codes of the format, for all values: a literal is 0 and eight bits, a match 11 and
      seven bits of offset or 10 and eleven, lengths as section 2 of RFC 2395 refers to
      them, the end marker 11 and a zero offset, followed by zeros to fill the byte. */
  lemma FormatCodes(value: Byte, offset: nat)
    requires offset < 2048
    ensures TokenBits(Literal(value)) == [false] + BitsOf(value, 8)
    ensures offset < 128 ==> OffsetBits(offset, false) == [true, true] + BitsOf(offset, 7)
    ensures OffsetBits(offset, true) == [true, false] + BitsOf(offset, 11)
    ensures EndMarker() == [true, true] + BitsOf(0, 7) && EndField() == EndMarker() + BitsOf(0, 7)
  {
    hide BitsOf;
    assert Pow2(7) == 128 && Pow2(8) == 256 && Pow2(11) == 2048 by {
      assert Pow2(8) == 256;
    }
    Pairs();
    SplitField(0, value, 1, 8);
    if offset < 128 {
      SplitField(3, offset, 2, 7);
    }
    SplitField(2, offset, 2, 11);
    SplitField(3, 0, 2, 7);
    SplitField(0x180, 0, 9, 7);
  }

  lemma Pairs()
    ensures BitsOf(0, 1) == [false]
    ensures BitsOf(0, 2) == [false, false] && BitsOf(1, 2) == [false, true]
    ensures BitsOf(2, 2) == [true, false] && BitsOf(3, 2) == [true, true]
  {
    assert !Bit(0, 0) && !Bit(0, 1) && Bit(1, 0) && !Bit(1, 1) && !Bit(2, 0) && Bit(2, 1) && Bit(3, 0) && Bit(3, 1);
  }

  /** Lengths 2 to 7 in two or four bits, and from 8 on 1111, once more for every fifteen,
      and the rest in four bits. */
  lemma LengthCodes(length: nat)
    requires length >= 2
    ensures length == 2 ==> LengthBits(length) == [false, false]
    ensures length == 3 ==> LengthBits(length) == [false, true]
    ensures length == 4 ==> LengthBits(length) == [true, false]
    ensures length == 5 ==> LengthBits(length) == [true, true, false, false]
    ensures length == 6 ==> LengthBits(length) == [true, true, false, true]
    ensures length == 7 ==> LengthBits(length) == [true, true, true, false]
    ensures length >= 8 ==> LengthBits(length) == Ones(4 * ((length + 7) / 15)) + BitsOf((length + 7) % 15, 4)
  {
    hide BitsOf;
    Pairs();
    SplitNibble(3, 0);
    SplitNibble(3, 1);
    SplitNibble(3, 2);
    SplitNibble(3, 3);
    if length >= 8 {
      ExtensionCodes(length + 7);
    }
  }

  function Ones(n: nat): (r: BitString)
    ensures |r| == n && forall i :: 0 <= i < n ==> r[i]
  {
    seq(n, _ => true)
  }

  lemma {:induction false} ExtensionCodes(extra: nat)
    ensures ExtensionBits(extra) == Ones(4 * (extra / 15)) + BitsOf(extra % 15, 4)
  {
    hide BitsOf;
    if extra >= 15 {
      ExtensionCodes(extra - 15);
      Pairs();
      SplitNibble(3, 3);
      var k := extra / 15;
      assert (extra - 15) / 15 == k - 1 && (extra - 15) % 15 == extra % 15;
      assert Ones(4 * k) == [true, true, true, true] + Ones(4 * (k - 1));
      AppendAssociates([true, true, true, true], Ones(4 * (k - 1)), BitsOf(extra % 15, 4));
      assert BitsOf(15, 4) == [true, true, true, true];
    } else {
      assert Ones(0) + BitsOf(extra, 4) == BitsOf(extra, 4);
    }
  }

  /** The first bit of a byte string is the top bit of its first byte. */
  lemma BitOrder(data: seq<Byte>)
    ensures data != [] ==> Stream(data)[0] == (data[0] >= 128) && Stream(data)[7] == (data[0] % 2 == 1)
  {
    if data != [] {
      var b: nat := data[0];
      assert Stream(data)[0] == StreamBit(data, 0) == Bit(b, 7);
      assert Stream(data)[7] == StreamBit(data, 7) == Bit(b, 0);
      TopBit(b);
    }
  }

  lemma TopBit(b: nat)
    requires b < 256
    ensures Bit(b, 7) == (b >= 128)
  {
    var x, y, z := b / 2, b / 4, b / 8;
    assert Bit(b, 7) == Bit(x, 6) == Bit(y, 5) == Bit(z, 4);
    assert Bit(z, 4) == Bit(z / 2, 3) == Bit(z / 4, 2) == Bit(z / 8, 1) == Bit(z / 16, 0);
  }
}
