/** Which tokens the compressor of lzs.go emits, said without its hash tables: at each
    position the longest match in the window, the nearest one among equals. */
module LzsParse {
  import opened Bytes
  import opened Bits
  import opened LzsFormat
  import opened LzsDecoder

  /** How far the texts from c and from p agree. */
  function MatchLength(s: seq<Byte>, c: nat, p: nat): (r: nat)
    requires c <= p <= |s|
    ensures p + r <= |s|
    decreases |s| - p
  {
    if p == |s| || s[c] != s[p] then 0 else 1 + MatchLength(s, c + 1, p + 1)
  }

  /** A position a match at p may point to: inserted before limit, in the window, and
      agreeing on two bytes. */
  ghost predicate Candidate(s: seq<Byte>, p: nat, limit: nat, c: nat)
    requires limit <= p <= |s|
  {
    c < limit && c + WINDOW > p && MatchLength(s, c, p) >= 2
  }

  /** q is the longest candidate, and the nearest of the longest. */
  ghost predicate IsBest(s: seq<Byte>, p: nat, limit: nat, q: nat)
    requires limit <= p <= |s|
  {
    && Candidate(s, p, limit, q)
    && forall c: nat :: Candidate(s, p, limit, c) ==>
         MatchLength(s, c, p) < MatchLength(s, q, p) || (MatchLength(s, c, p) == MatchLength(s, q, p) && c <= q)
  }

  /** The best candidate below limit, by looking at every position in the window. */
  function Best(s: seq<Byte>, p: nat, limit: nat): (r: Option<nat>)
    requires limit <= p <= |s|
    ensures r.Some? ==> r.value < limit && r.value + WINDOW > p && MatchLength(s, r.value, p) >= 2
  {
    if limit == 0 || limit - 1 + WINDOW <= p then None
    else
      var older := Best(s, p, limit - 1);
      if MatchLength(s, limit - 1, p) < 2 then older
      else if older.Some? && MatchLength(s, older.value, p) > MatchLength(s, limit - 1, p) then older
      else Some(limit - 1)
  }

  lemma {:induction false} BestIsBest(s: seq<Byte>, p: nat, limit: nat)
    requires limit <= p <= |s|
    ensures match Best(s, p, limit)
            case Some(q) => IsBest(s, p, limit, q)
            case None => forall c: nat :: !Candidate(s, p, limit, c)
  {
    if limit > 0 && limit - 1 + WINDOW > p {
      BestIsBest(s, p, limit - 1);
      assert forall c: nat :: Candidate(s, p, limit, c) ==> c == limit - 1 || Candidate(s, p, limit - 1, c);
    }
  }

  lemma BestIsUnique(s: seq<Byte>, p: nat, limit: nat, q: nat)
    requires limit <= p <= |s|
    requires IsBest(s, p, limit, q)
    ensures Best(s, p, limit) == Some(q)
  {
    BestIsBest(s, p, limit);
    assert Candidate(s, p, limit, q);
  }

  /** Searching below limit alone finds what searching everywhere finds, if and only if
      that lies below limit or is nothing. */
  lemma LimitedSearch(s: seq<Byte>, p: nat, limit: nat)
    requires limit <= p <= |s|
    ensures Best(s, p, limit) == Best(s, p, p) <==> Best(s, p, p).None? || Best(s, p, p).value < limit
  {
    hide MatchLength;
    BestIsBest(s, p, p);
    BestIsBest(s, p, limit);
    assert forall c: nat :: Candidate(s, p, limit, c) ==> Candidate(s, p, p, c);
    match Best(s, p, p)
    case Some(q) =>
      if q < limit {
        assert IsBest(s, p, limit, q);
        BestIsUnique(s, p, limit, q);
      }
    case None =>
  }

  /** With two bytes left, the search below limit misses a match if and only if the two
      bytes stand somewhere in the window at or after limit. */
  lemma TailMisses(s: seq<Byte>, p: nat, limit: nat)
    requires limit <= p && p + 2 == |s|
    ensures Best(s, p, limit) != Best(s, p, p) <==>
              exists c :: limit <= c < p && c + WINDOW > p && s[c] == s[p] && s[c + 1] == s[p + 1]
  {
    LimitedSearch(s, p, limit);
    BestIsBest(s, p, p);
    if Best(s, p, p).Some? {
      PairMatches(s, Best(s, p, p).value, p);
    }
    if c :| limit <= c < p && c + WINDOW > p && s[c] == s[p] && s[c + 1] == s[p + 1] {
      PairMatches(s, c, p);
      assert Candidate(s, p, p, c);
    }
  }

  lemma PairMatches(s: seq<Byte>, c: nat, p: nat)
    requires c < p && p + 2 == |s|
    ensures MatchLength(s, c, p) >= 2 <==> s[c] == s[p] && s[c + 1] == s[p + 1]
    ensures MatchLength(s, c, p) <= 2
  {
    assert MatchLength(s, c + 1, p + 1) >= 1 <==> s[c + 1] == s[p + 1];
  }

  function MatchToken(offset: nat, length: nat): Token {
    Match(offset, length, offset >= 0x80)
  }

  /** The tokens for the text from p on. Once fewer than three bytes remain no position
      is inserted any more, and a match that reaches that far leaves its own bytes out. */
  function Parse(s: seq<Byte>, p: nat): (r: seq<Token>)
    requires p <= |s|
    ensures AllEncodable(r, p)
    decreases |s| - p
  {
    if p + 2 >= |s| then ParseTail(s, p, p)
    else
      match Best(s, p, p)
      case None =>
        var rest := Parse(s, p + 1);
        assert ([Literal(s[p])] + rest)[1..] == rest;
        [Literal(s[p])] + rest
      case Some(q) =>
        var length := MatchLength(s, q, p);
        var rest := AfterMatch(s, p, length);
        assert ([MatchToken(p - q, length)] + rest)[1..] == rest;
        [MatchToken(p - q, length)] + rest
  }

  function AfterMatch(s: seq<Byte>, p: nat, length: nat): (r: seq<Token>)
    requires 2 <= length && p + length <= |s|
    ensures AllEncodable(r, p + length)
    decreases |s| - p, 0
  {
    if p + length + 2 >= |s| then ParseTail(s, p + length, p + 1) else Parse(s, p + length)
  }

  /** The last two bytes, looking only at positions below limit. */
  function ParseTail(s: seq<Byte>, p: nat, limit: nat): (r: seq<Token>)
    requires limit <= p <= |s| <= p + 2
    ensures AllEncodable(r, p)
  {
    if p + 2 == |s| then
      match Best(s, p, limit)
      case Some(q) => [MatchToken(p - q, 2)]
      case None =>
        assert AllEncodable([Literal(s[p + 1])], p + 1);
        assert [Literal(s[p]), Literal(s[p + 1])][1..] == [Literal(s[p + 1])];
        [Literal(s[p]), Literal(s[p + 1])]
    else if p + 1 == |s| then [Literal(s[p])]
    else []
  }

  const TAIL_TEXT: seq<Byte> := [1, 2, 9, 1, 2, 2, 2]

  lemma TailMatches()
    ensures var s := TAIL_TEXT;
            && MatchLength(s, 0, 1) == 0 && MatchLength(s, 0, 2) == 0 && MatchLength(s, 1, 2) == 0
            && MatchLength(s, 0, 3) == 2 && MatchLength(s, 1, 3) == 0 && MatchLength(s, 2, 3) == 0
            && MatchLength(s, 0, 5) == 0 && MatchLength(s, 1, 5) == 1 && MatchLength(s, 2, 5) == 0
            && MatchLength(s, 3, 5) == 0 && MatchLength(s, 4, 5) == 2
  {
    var s := TAIL_TEXT;
    assert MatchLength(s, 2, 5) == 0 && MatchLength(s, 1, 4) == 1 + MatchLength(s, 2, 5);
    assert MatchLength(s, 2, 6) == 0 && MatchLength(s, 6, 7) == 0 && MatchLength(s, 5, 6) == 1;
  }

  lemma TailSearches()
    ensures var s := TAIL_TEXT;
            && Best(s, 0, 0) == None && Best(s, 1, 1) == None && Best(s, 2, 2) == None && Best(s, 3, 3) == Some(0)
            && Best(s, 5, 4) == None && Best(s, 5, 5) == Some(4)
  {
    hide MatchLength;
    var s := TAIL_TEXT;
    TailMatches();
    assert Best(s, 1, 0) == None && Best(s, 2, 0) == None && Best(s, 3, 0) == None && Best(s, 5, 0) == None;
    assert Best(s, 2, 1) == None && Best(s, 3, 1) == Some(0) && Best(s, 5, 1) == None;
    assert Best(s, 3, 2) == Some(0) && Best(s, 5, 2) == None;
    assert Best(s, 5, 3) == None;
  }

  /** 1 2 9 1 2 2 2: the match of 1 2 ends two bytes before the end, so its second byte is
      not indexed and the last two bytes are literals, although one byte back there is a
      match for them. */
  lemma TailExample()
    ensures Parse(TAIL_TEXT, 0) == [Literal(1), Literal(2), Literal(9), Match(3, 2, false), Literal(2), Literal(2)]
    ensures Best(TAIL_TEXT, 5, 4) == None && Best(TAIL_TEXT, 5, 5) == Some(4)
  {
    hide Best, MatchLength;
    var s := TAIL_TEXT;
    TailMatches();
    TailSearches();
    assert ParseTail(s, 5, 4) == [Literal(2), Literal(2)];
    assert Parse(s, 3) == [Match(3, 2, false)] + ParseTail(s, 5, 4);
    assert Parse(s, 2) == [Literal(9)] + Parse(s, 3);
    assert Parse(s, 1) == [Literal(2)] + Parse(s, 2);
  }

  // ---------------------------------------------------------------- meaning

  lemma {:induction false} MatchAgrees(s: seq<Byte>, c: nat, p: nat)
    requires c <= p <= |s|
    ensures var r := MatchLength(s, c, p); s[c..c + r] == s[p..p + r]
    ensures var r := MatchLength(s, c, p); p + r < |s| ==> s[c + r] != s[p + r]
    decreases |s| - p
  {
    if p < |s| && s[c] == s[p] {
      MatchAgrees(s, c + 1, p + 1);
      var r := MatchLength(s, c, p);
      assert s[c..c + r] == [s[c]] + s[c + 1..c + r];
      assert s[p..p + r] == [s[p]] + s[p + 1..p + r];
    }
  }

  lemma {:induction false} MatchAtLeast(s: seq<Byte>, c: nat, p: nat, k: nat)
    requires c <= p && p + k <= |s|
    requires s[c..c + k] == s[p..p + k]
    ensures MatchLength(s, c, p) >= k
    decreases k
  {
    if k > 0 {
      assert s[c] == s[c..c + k][0] == s[p];
      assert s[c + 1..c + k] == s[c..c + k][1..] == s[p + 1..p + k];
      MatchAtLeast(s, c + 1, p + 1, k - 1);
    }
  }

  lemma {:induction false} MatchAgreesAt(s: seq<Byte>, c: nat, p: nat, k: nat)
    requires c <= p && p + k <= |s|
    ensures k < MatchLength(s, c, p) ==> s[c + k] == s[p + k]
    decreases k
  {
    if k > 0 {
      MatchAgreesAt(s, c + 1, p + 1, k - 1);
    }
  }

  lemma MatchExpands(s: seq<Byte>, p: nat, q: nat, length: nat)
    requires q < p <= |s| && length <= MatchLength(s, q, p)
    ensures CopyBack(s[..p], p - q, length) == s[..p + length]
  {
    MatchAgrees(s, q, p);
    var r := MatchLength(s, q, p);
    assert s[q..q + length] == s[q..q + r][..length] == s[p..p + r][..length] == s[p..p + length];
    CopyBackReproduces(s, p, q, length);
  }

  lemma PrependExpands(s: seq<Byte>, p: nat, t: Token, rest: seq<Token>)
    requires p + TokenLength(t) <= |s| && Encodable(t, p) && Apply(s[..p], t) == s[..p + TokenLength(t)]
    requires AllEncodable(rest, p + TokenLength(t)) && Expand(s[..p + TokenLength(t)], rest) == s
    ensures AllEncodable([t] + rest, p) && Expand(s[..p], [t] + rest) == s
  {
    assert ([t] + rest)[1..] == rest;
  }

  lemma TailMeans(s: seq<Byte>, p: nat, limit: nat)
    requires limit <= p <= |s| <= p + 2
    ensures Expand(s[..p], ParseTail(s, p, limit)) == s
  {
    assert s[..|s|] == s;
    if p + 2 == |s| {
      match Best(s, p, limit)
      case Some(q) =>
        MatchExpands(s, p, q, 2);
      case None =>
        assert s[..p] + [s[p]] == s[..p + 1] && s[..p + 1] + [s[p + 1]] == s;
        PrependExpands(s, p + 1, Literal(s[p + 1]), []);
        PrependExpands(s, p, Literal(s[p]), [Literal(s[p + 1])]);
    } else if p + 1 == |s| {
      assert s[..p] + [s[p]] == s;
    }
  }

  /** The tokens stand for the text: expanding them gives it back. */
  lemma {:induction false} ParseMeans(s: seq<Byte>, p: nat)
    requires p <= |s|
    ensures Expand(s[..p], Parse(s, p)) == s
    decreases |s| - p
  {
    hide Best, MatchLength, CopyBack;
    if p + 2 >= |s| {
      TailMeans(s, p, p);
    } else {
      match Best(s, p, p)
      case None =>
        ParseMeans(s, p + 1);
        assert s[..p] + [s[p]] == s[..p + 1];
        PrependExpands(s, p, Literal(s[p]), Parse(s, p + 1));
      case Some(q) =>
        var length := MatchLength(s, q, p);
        MatchExpands(s, p, q, length);
        if p + length + 2 >= |s| {
          TailMeans(s, p + length, p + 1);
        } else {
          ParseMeans(s, p + length);
        }
        PrependExpands(s, p, MatchToken(p - q, length), AfterMatch(s, p, length));
    }
  }

  // ---------------------------------------------------------------- round trip

  /** The compressed bits of s, without the end marker. */
  ghost function Encoded(s: seq<Byte>): BitString {
    EncodeTokens(Parse(s, 0), 0)
  }

  /** What `compress` writes after the tokens: the end marker and seven zero bits. */
  function EndField(): BitString {
    BitsOf(0xc000, 16)
  }

  lemma EndFieldStarts()
    ensures EndField()[..9] == EndMarker()
  {
    SplitField(0x180, 0, 9, 7);
    assert 0x180 * Pow2(7) == 0xc000;
  }

  /** For every text: any byte string whose bits begin with the compressed form, cut
      down to whole bytes as `compress` returns it, decodes to the text. */
  lemma RoundTrip(s: seq<Byte>, data: seq<Byte>, n: nat, capacity: nat)
    requires n == (|Encoded(s)| + 16) / 8 <= |data|
    requires |s| <= capacity
    requires Stream(data)[..8 * n] == (Encoded(s) + EndField())[..8 * n]
    ensures Decode(Stream(data[..n]), 0, [], capacity) == Ok(s)
  {
    var bits, whole := Stream(data[..n]), Encoded(s) + EndField();
    var end := |Encoded(s)| + 9;
    assert end <= 8 * n;
    forall k | 0 <= k < end ensures bits[k] == whole[k] {
      assert bits[k] == Stream(data)[k] == Stream(data)[..8 * n][k] == whole[..8 * n][k];
    }
    EndFieldStarts();
    assert whole[..end] == Encoded(s) + EndMarker();
    assert bits[..end] == whole[..end];
    EncodedStreamAt(bits, 0, Parse(s, 0), 0);
    ParseMeans(s, 0);
    assert s[..0] == [];
    StreamReads(bits, 0, Parse(s, 0), [], capacity);
  }

  /** Compression never needs more than nine bits for a byte. */
  lemma WorstCase(s: seq<Byte>)
    ensures |Encoded(s)| <= 9 * |s|
  {
    ParseMeans(s, 0);
    assert s[..0] == [];
    StreamCost(Parse(s, 0), []);
  }
}
