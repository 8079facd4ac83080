/** updateAdler32 of anyconnect_compression.go: the checksum of section 2.2 of RFC 1950
    with the reductions put off to the end of blocks of 5552 bytes. */
module Adler32 {
  import opened Bytes

  const MODULUS := 65521
  const BLOCK := 5552

  /** A variable of this type cannot overflow unnoticed. */
  type Uint32 = x: int | 0 <= x < 0x1_0000_0000

  /** The two sums; the checksum is high * 65536 + low. */
  datatype Sums = Sums(low: nat, high: nat)

  function SumsOf(checksum: Uint32): Sums {
    Sums(checksum % 65536, checksum / 65536)
  }

  /** The definition: both sums reduced at every byte. */
  function ByteByByte(s: Sums, payload: seq<Byte>): Sums
    decreases |payload|
  {
    if payload == [] then s
    else
      var low := (s.low + payload[0]) % MODULUS;
      ByteByByte(Sums(low, (s.high + low) % MODULUS), payload[1..])
  }

  function Reduced(s: Sums): Sums {
    Sums(s.low % MODULUS, s.high % MODULUS)
  }

  /** No reduction at all. */
  function Unreduced(s: Sums, payload: seq<Byte>): Sums
    decreases |payload|
  {
    if payload == [] then s
    else
      var low := s.low + payload[0];
      Unreduced(Sums(low, s.high + low), payload[1..])
  }

  /** Reducing first, at every byte or at the end makes no difference. */
  lemma {:induction false} ReductionCanWait(s: Sums, payload: seq<Byte>)
    ensures Reduced(Unreduced(s, payload)) == ByteByByte(Reduced(s), payload)
    decreases |payload|
  {
    if payload != [] {
      var low := s.low + payload[0];
      var next := Sums(low, s.high + low);
      ReductionCanWait(next, payload[1..]);
      ReduceStep(s.low, s.high, payload[0]);
    }
  }

  lemma ReduceStep(low: nat, high: nat, value: Byte)
    ensures (low % MODULUS + value) % MODULUS == (low + value) % MODULUS
    ensures (high % MODULUS + (low + value) % MODULUS) % MODULUS == (high + (low + value)) % MODULUS
  {
    ReduceSum(low, value);
    ReduceSum(high, (low + value) % MODULUS);
    ReduceSum(low + value, high);
  }

  lemma ReduceSum(x: nat, y: nat)
    ensures (x % MODULUS + y) % MODULUS == (x + y) % MODULUS
  {
    var q, r := x / MODULUS, x % MODULUS;
    assert x + y == (r + y) + q * MODULUS;
  }

  lemma {:induction false} UnreducedNext(s: Sums, payload: seq<Byte>, i: nat)
    requires i < |payload|
    ensures var before, after := Unreduced(s, payload[..i]), Unreduced(s, payload[..i + 1]);
            after.low == before.low + payload[i] && after.high == before.high + after.low
    decreases |payload|
  {
    if i > 0 {
      var next := Sums(s.low + payload[0], s.high + s.low + payload[0]);
      UnreducedNext(next, payload[1..], i - 1);
      assert payload[..i][1..] == payload[1..][..i - 1] && payload[..i + 1][1..] == payload[1..][..i];
    } else {
      assert payload[..1][1..] == [];
    }
  }

  /** 1 + 2 + ... + n. */
  function Triangle(n: nat): nat {
    if n == 0 then 0 else Triangle(n - 1) + n
  }

  lemma {:induction false} TriangleValue(n: nat)
    ensures 2 * Triangle(n) == n * (n + 1)
  {
    if n > 0 {
      TriangleValue(n - 1);
    }
  }

  lemma {:induction false} TriangleGrows(m: nat, n: nat)
    requires m <= n
    ensures Triangle(m) <= Triangle(n)
  {
    if m < n {
      TriangleGrows(m, n - 1);
    }
  }

  /** The largest sums a block can reach from sums of 16 bits. */
  ghost predicate Within(s: Sums, i: nat) {
    s.low <= 65535 + 255 * i && s.high <= 65535 * (i + 1) + 255 * Triangle(i)
  }

  lemma BlockFits(s: Sums, i: nat)
    requires Within(s, i) && i <= BLOCK
    ensures s.low < 0x1_0000_0000 && s.high < 0x1_0000_0000
  {
    hide Triangle;
    TriangleGrows(i, BLOCK);
    TriangleValue(BLOCK);
  }

  /** The inner loop: one block, in 32-bit variables. */
  method SumBlock(low0: Uint32, high0: Uint32, block: seq<Byte>) returns (low: Uint32, high: Uint32)
    requires low0 < 65536 && high0 < 65536 && |block| <= BLOCK
    ensures Sums(low, high) == Unreduced(Sums(low0, high0), block)
  {
    low, high := low0, high0;
    ghost var start := Sums(low0, high0);
    assert block[..0] == [];
    for i := 0 to |block|
      invariant Sums(low, high) == Unreduced(start, block[..i]) && Within(Sums(low, high), i)
    {
      UnreducedNext(start, block, i);
      BlockFits(Unreduced(start, block[..i + 1]), i + 1);
      low := low + block[i];
      high := high + low;
    }
    assert block[..|block|] == block;
  }

  /** The checksum the definition gives, on 32-bit values. An empty payload leaves any
      value alone, reduced or not. */
  function Checksum(checksum: Uint32, payload: seq<Byte>): (r: Uint32)
    ensures payload != [] ==> SumsOf(r) == ByteByByte(Reduced(SumsOf(checksum)), payload)
  {
    if payload == [] then checksum
    else
      StaysReduced(Reduced(SumsOf(checksum)), payload);
      var s := ByteByByte(Reduced(SumsOf(checksum)), payload);
      s.high * 65536 + s.low
  }

  /** For every start, valid or not, updating by a and then by b is updating by both. */
  lemma UpdateTwice(checksum: Uint32, a: seq<Byte>, b: seq<Byte>)
    ensures Checksum(Checksum(checksum, a), b) == Checksum(checksum, a + b)
  {
    hide ByteByByte;
    if a == [] {
      assert a + b == b;
    } else if b == [] {
      assert a + b == a;
    } else {
      var s := Reduced(SumsOf(checksum));
      StaysReduced(s, a);
      assert Reduced(ByteByByte(s, a)) == ByteByByte(s, a);
      SumsAppend(s, a, b);
      SameSums(Checksum(Checksum(checksum, a), b), Checksum(checksum, a + b));
    }
  }

  /** The checksum of "ab", started with 1: the sum of the bytes below, the sum of sums above. */
  lemma ChecksumOfAb()
    ensures Checksum(1, [97, 98]) == 0x0126_00c4
  {
    hide ByteByByte;
    assert Reduced(SumsOf(1)) == Sums(1, 0);
    OneByte(Sums(1, 0), 97, [98]);
    OneByte(Sums(98, 98), 98, []);
    NothingLeft(Sums(196, 294), []);
    assert [97, 98] == [97] + [98] && [98] == [98] + [];
  }

  lemma OneByte(s: Sums, value: Byte, rest: seq<Byte>)
    ensures var low := (s.low + value) % MODULUS;
            ByteByByte(s, [value] + rest) == ByteByByte(Sums(low, (s.high + low) % MODULUS), rest)
  {
    assert ([value] + rest)[1..] == rest;
  }

  lemma SameSums(x: Uint32, y: Uint32)
    requires SumsOf(x) == SumsOf(y)
    ensures x == y
  {
  }

  /** updateAdler32: for every starting value and every payload no sum overflows, and the
      result is the definition's. */
  method Update(checksum: Uint32, payload: seq<Byte>) returns (r: Uint32)
    ensures r == Checksum(checksum, payload)
  {
    hide ByteByByte, Unreduced, Reduced;
    var low: Uint32, high: Uint32 := checksum % 65536, checksum / 65536;
    var rest := payload;
    ghost var whole := ByteByByte(Reduced(SumsOf(checksum)), payload);
    while |rest| > 0
      invariant low < 65536 && high < 65536
      invariant ByteByByte(Reduced(Sums(low, high)), rest) == whole
      invariant |rest| <= |payload|
      invariant |rest| == |payload| ==> low == checksum % 65536 && high == checksum / 65536
      invariant |rest| < |payload| ==> Reduced(Sums(low, high)) == Sums(low, high)
      decreases |rest|
    {
      var blockSize := if |rest| < BLOCK then |rest| else BLOCK;
      var block := rest[..blockSize];
      ghost var start := Sums(low, high);
      low, high := SumBlock(low, high, block);
      assert rest == block + rest[blockSize..];
      BlockStep(start, Sums(low, high), block, rest[blockSize..]);
      low := low % MODULUS;
      high := high % MODULUS;
      rest := rest[blockSize..];
    }
    NothingLeft(Sums(low, high), rest);
    r := high * 65536 + low;
    SameSums(r, if payload == [] then checksum else Checksum(checksum, payload));
  }

  lemma NothingLeft(s: Sums, rest: seq<Byte>)
    requires rest == []
    ensures ByteByByte(s, rest) == s
  {
  }

  /** A block summed without reduction and reduced once. */
  lemma BlockStep(start: Sums, end: Sums, block: seq<Byte>, rest: seq<Byte>)
    requires end == Unreduced(start, block)
    ensures var next := Sums(end.low % MODULUS, end.high % MODULUS);
            && Reduced(next) == next
            && ByteByByte(next, rest) == ByteByByte(Reduced(start), block + rest)
  {
    ReductionCanWait(start, block);
    SumsAppend(Reduced(start), block, rest);
  }

  /** Summing a and then b is summing both. */
  lemma {:induction false} SumsAppend(s: Sums, a: seq<Byte>, b: seq<Byte>)
    ensures ByteByByte(ByteByByte(s, a), b) == ByteByByte(s, a + b)
    decreases |a|
  {
    if a == [] {
      assert a + b == b;
    } else {
      var low := (s.low + a[0]) % MODULUS;
      SumsAppend(Sums(low, (s.high + low) % MODULUS), a[1..], b);
      assert (a + b)[1..] == a[1..] + b;
    }
  }

  /** The sums of the definition stay reduced, so every result is a valid start. */
  lemma {:induction false} StaysReduced(s: Sums, payload: seq<Byte>)
    requires s.low < MODULUS && s.high < MODULUS
    ensures ByteByByte(s, payload).low < MODULUS && ByteByByte(s, payload).high < MODULUS
    decreases |payload|
  {
    if payload != [] {
      var low := (s.low + payload[0]) % MODULUS;
      StaysReduced(Sums(low, (s.high + low) % MODULUS), payload[1..]);
    }
  }
}
