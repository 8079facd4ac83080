/** The LZS bit format of lzs.go: a stream of literals and matches closed by an
    end marker, stated on bit strings and independent of how it is produced. */
module LzsFormat {
  import opened Bytes
  import opened Bits

  type BitString = seq<bool>

  /** wide chooses the 11-bit offset form over the 7-bit one. */
  datatype Token = Literal(value: Byte) | Match(offset: nat, length: nat, wide: bool)

  const WINDOW := 2048
  const END_CODE := 0x180

  // ---------------------------------------------------------------- bit strings

  /** The low n bits of value, most significant first. */
  function BitsOf(value: nat, n: nat): (r: BitString)
    ensures |r| == n
  {
    seq(n, i requires 0 <= i < n => Bit(value, n - 1 - i))
  }

  function ValueOf(bits: BitString): nat {
    if bits == [] then 0
    else 2 * ValueOf(bits[..|bits| - 1]) + (if bits[|bits| - 1] then 1 else 0)
  }

  /** Bit k of a byte string: bytes in order, each from its top bit down. */
  predicate StreamBit(data: seq<Byte>, k: nat)
    requires k < 8 * |data|
  {
    Bit(data[k / 8], 7 - k % 8)
  }

  function Stream(data: seq<Byte>): (r: BitString)
    ensures |r| == 8 * |data|
    ensures forall k :: 0 <= k < |r| ==> r[k] == StreamBit(data, k)
  {
    seq(8 * |data|, k requires 0 <= k < 8 * |data| => StreamBit(data, k))
  }

  lemma BitsOfLast(value: nat, n: nat)
    requires n > 0
    ensures BitsOf(value, n) == BitsOf(value / 2, n - 1) + [value % 2 == 1]
  {
    forall i | 0 <= i < n - 1 ensures BitsOf(value, n)[i] == BitsOf(value / 2, n - 1)[i] {
      assert Bit(value, n - 1 - i) == Bit(value / 2, n - 2 - i);
    }
    assert BitsOf(value, n)[n - 1] == Bit(value, 0);
  }

  lemma {:induction false} ValueOfBitsOf(value: nat, n: nat)
    requires value < Pow2(n)
    ensures ValueOf(BitsOf(value, n)) == value
  {
    if n > 0 {
      BitsOfLast(value, n);
      ValueOfBitsOf(value / 2, n - 1);
      assert BitsOf(value, n)[..n - 1] == BitsOf(value / 2, n - 1);
    }
  }

  lemma {:induction false} BitsOfValueOf(bits: BitString)
    ensures ValueOf(bits) < Pow2(|bits|)
    ensures BitsOf(ValueOf(bits), |bits|) == bits
  {
    if bits != [] {
      BitsOfValueOf(bits[..|bits| - 1]);
      BitsOfLast(ValueOf(bits), |bits|);
    }
  }

  /** A field of n + m bits is the field of its high n bits, then of its low m. */
  lemma {:induction false} SplitField(high: nat, low: nat, n: nat, m: nat)
    requires low < Pow2(m)
    ensures BitsOf(high * Pow2(m) + low, n + m) == BitsOf(high, n) + BitsOf(low, m)
  {
    if m > 0 {
      var v := high * Pow2(m) + low;
      HalveProduct(high, Pow2(m - 1), low);
      SplitField(high, low / 2, n, m - 1);
      BitsOfLast(v, n + m);
      BitsOfLast(low, m);
      AppendAssociates(BitsOf(high, n), BitsOf(low / 2, m - 1), [low % 2 == 1]);
    }
  }

  lemma HalveProduct(high: nat, half: nat, low: nat)
    ensures (high * (2 * half) + low) / 2 == high * half + low / 2
    ensures (high * (2 * half) + low) % 2 == low % 2
  {
    assert high * (2 * half) == 2 * (high * half);
  }

  /** The two splits the format uses: a nibble of two pairs, and the wide offset. */
  lemma SplitNibble(high: nat, low: nat)
    requires low < 4
    ensures BitsOf(4 * high + low, 4) == BitsOf(high, 2) + BitsOf(low, 2)
  {
    SplitField(high, low, 2, 2);
  }

  lemma SplitWide(high: nat, low: nat)
    requires low < 16
    ensures BitsOf(16 * high + low, 13) == BitsOf(high, 9) + BitsOf(low, 4)
  {
    SplitField(high, low, 9, 4);
  }

  lemma AppendAssociates(a: BitString, b: BitString, c: BitString)
    ensures (a + b) + c == a + (b + c)
  {
  }

  // ---------------------------------------------------------------- encoding

  /** The length field of a match: 2 bits up to 4, 4 bits up to 7, then 1111 and
      groups of four bits, each 15 adding 15 and the first other one ending it. */
  function LengthBits(length: nat): BitString
    requires length >= 2
  {
    if length < 5 then BitsOf(length - 2, 2)
    else if length < 8 then BitsOf(length + 7, 4)
    else BitsOf(15, 4) + ExtensionBits(length - 8)
  }

  function ExtensionBits(extra: nat): BitString {
    if extra < 15 then BitsOf(extra, 4) else BitsOf(15, 4) + ExtensionBits(extra - 15)
  }

  function OffsetBits(offset: nat, wide: bool): BitString {
    if wide then BitsOf(0x1000 + offset, 13) else BitsOf(0x180 + offset, 9)
  }

  function TokenBits(t: Token): BitString
    requires t.Match? ==> t.length >= 2
  {
    match t
    case Literal(value) => BitsOf(value, 9)
    case Match(offset, length, wide) => OffsetBits(offset, wide) + LengthBits(length)
  }

  /** A token the format can carry after `produced` output bytes. */
  predicate Encodable(t: Token, produced: nat) {
    t.Match? ==>
      && 1 <= t.offset <= produced
      && t.offset < (if t.wide then WINDOW else 128)
      && t.length >= 2
  }

  function TokenLength(t: Token): nat {
    if t.Literal? then 1 else t.length
  }

  ghost predicate AllEncodable(tokens: seq<Token>, produced: nat)
    decreases |tokens|
  {
    tokens == [] ||
    (Encodable(tokens[0], produced) && AllEncodable(tokens[1..], produced + TokenLength(tokens[0])))
  }

  ghost function EncodeTokens(tokens: seq<Token>, produced: nat): BitString
    requires AllEncodable(tokens, produced)
    decreases |tokens|
  {
    if tokens == [] then []
    else TokenBits(tokens[0]) + EncodeTokens(tokens[1..], produced + TokenLength(tokens[0]))
  }

  function EndMarker(): BitString {
    BitsOf(END_CODE, 9)
  }

  // ---------------------------------------------------------------- meaning

  /** Copies length bytes from offset back, one at a time, so a match may overlap
      the bytes it is producing. */
  function CopyBack(out: seq<Byte>, offset: nat, length: nat): (r: seq<Byte>)
    requires 1 <= offset <= |out|
    ensures |r| == |out| + length
    ensures out <= r
    decreases length
  {
    if length == 0 then out
    else CopyBack(out + [out[|out| - offset]], offset, length - 1)
  }

  function Apply(out: seq<Byte>, t: Token): (r: seq<Byte>)
    requires Encodable(t, |out|)
    ensures |r| == |out| + TokenLength(t)
  {
    match t
    case Literal(value) => out + [value]
    case Match(offset, length, _) => CopyBack(out, offset, length)
  }

  /** The bytes a token list stands for, after `out`. */
  ghost function Expand(out: seq<Byte>, tokens: seq<Token>): (r: seq<Byte>)
    requires AllEncodable(tokens, |out|)
    ensures |out| <= |r|
    decreases |tokens|
  {
    if tokens == [] then out else Expand(Apply(out, tokens[0]), tokens[1..])
  }

  /** A match against earlier text reproduces the text, overlap included. */
  lemma {:induction false} CopyBackReproduces(s: seq<Byte>, p: nat, q: nat, length: nat)
    requires q < p && p + length <= |s|
    requires s[q..q + length] == s[p..p + length]
    ensures CopyBack(s[..p], p - q, length) == s[..p + length]
    decreases length
  {
    if length > 0 {
      assert s[q] == s[q..q + length][0] == s[p];
      assert s[..p] + [s[p]] == s[..p + 1];
      assert s[q + 1..q + length] == s[q..q + length][1..] == s[p + 1..p + length];
      CopyBackReproduces(s, p + 1, q + 1, length - 1);
    }
  }

  // ---------------------------------------------------------------- size

  lemma {:induction false} ExtensionSize(extra: nat)
    ensures |ExtensionBits(extra)| <= 4 + 4 * extra
  {
    if extra >= 15 {
      ExtensionSize(extra - 15);
    }
  }

  /** No token costs more than nine bits for each byte it stands for. */
  lemma TokenCost(t: Token, produced: nat)
    requires Encodable(t, produced)
    ensures |TokenBits(t)| <= 9 * TokenLength(t)
  {
    if t.Match? && t.length >= 8 {
      ExtensionSize(t.length - 8);
    }
  }

  lemma {:induction false} StreamCost(tokens: seq<Token>, out: seq<Byte>)
    requires AllEncodable(tokens, |out|)
    ensures |EncodeTokens(tokens, |out|)| <= 9 * (|Expand(out, tokens)| - |out|)
    decreases |tokens|
  {
    if tokens != [] {
      TokenCost(tokens[0], |out|);
      StreamCost(tokens[1..], Apply(out, tokens[0]));
    }
  }
}
