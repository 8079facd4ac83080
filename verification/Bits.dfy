/** Machine-word bit operations on natural numbers: bit j of x is the
    coefficient of 2^j. Shifts name their width, so nothing is truncated silently. */
module Bits {

  function Pow2(n: nat): (r: nat)
    ensures r > 0
  {
    if n == 0 then 1 else 2 * Pow2(n - 1)
  }

  predicate Bit(x: nat, j: nat) {
    if j == 0 then x % 2 == 1 else Bit(x / 2, j - 1)
  }

  function Or(x: nat, y: nat): nat {
    if x == 0 && y == 0 then 0
    else 2 * Or(x / 2, y / 2) + (if x % 2 == 1 || y % 2 == 1 then 1 else 0)
  }

  function And(x: nat, y: nat): nat {
    if x == 0 || y == 0 then 0
    else 2 * And(x / 2, y / 2) + (if x % 2 == 1 && y % 2 == 1 then 1 else 0)
  }

  /** The operator `&^`: x with every bit of y cleared. */
  function AndNot(x: nat, y: nat): nat {
    if x == 0 then 0
    else 2 * AndNot(x / 2, y / 2) + (if x % 2 == 1 && y % 2 == 0 then 1 else 0)
  }

  function Xor(x: nat, y: nat): nat {
    if x == 0 && y == 0 then 0
    else 2 * Xor(x / 2, y / 2) + (if x % 2 != y % 2 then 1 else 0)
  }

  /** `x << k` in a word of the given width. */
  function ShiftLeft(x: nat, k: nat, width: nat): nat {
    (x * Pow2(k)) % Pow2(width)
  }

  lemma {:induction false} Pow2Monotone(a: nat, b: nat)
    requires a <= b
    ensures Pow2(a) <= Pow2(b)
  {
    if a < b {
      Pow2Monotone(a, b - 1);
    }
  }

  lemma {:induction false} BitOfZero(j: nat)
    ensures !Bit(0, j)
  {
    if j > 0 {
      BitOfZero(j - 1);
    }
  }

  lemma {:induction false} BitOfPow2(i: nat, j: nat)
    ensures Bit(Pow2(i), j) <==> i == j
  {
    if i == 0 {
      if j > 0 {
        BitOfZero(j - 1);
      }
    } else if j > 0 {
      assert Pow2(i) / 2 == Pow2(i - 1);
      BitOfPow2(i - 1, j - 1);
    }
  }

  lemma {:induction false} BitOfOr(x: nat, y: nat, j: nat)
    ensures Bit(Or(x, y), j) <==> Bit(x, j) || Bit(y, j)
  {
    if x == 0 && y == 0 {
      BitOfZero(j);
    } else if j > 0 {
      assert Or(x, y) / 2 == Or(x / 2, y / 2);
      BitOfOr(x / 2, y / 2, j - 1);
    }
  }

  lemma {:induction false} BitOfAndNot(x: nat, y: nat, j: nat)
    ensures Bit(AndNot(x, y), j) <==> Bit(x, j) && !Bit(y, j)
  {
    if x == 0 {
      BitOfZero(j);
    } else if j > 0 {
      assert AndNot(x, y) / 2 == AndNot(x / 2, y / 2);
      BitOfAndNot(x / 2, y / 2, j - 1);
    }
  }

  /** A word of n bits stays a word of n bits. */
  lemma {:induction false} BitwiseBounds(x: nat, y: nat, n: nat)
    requires x < Pow2(n) && y < Pow2(n)
    ensures Or(x, y) < Pow2(n) && AndNot(x, y) < Pow2(n) && Xor(x, y) < Pow2(n)
  {
    if n > 0 && (x != 0 || y != 0) {
      BitwiseBounds(x / 2, y / 2, n - 1);
    }
  }

  /** Testing a word against a one-bit mask reads that bit. */
  lemma {:induction false} MaskTest(x: nat, i: nat)
    ensures And(x, Pow2(i)) != 0 <==> Bit(x, i)
  {
    if x == 0 {
      BitOfZero(i);
    } else if i > 0 {
      assert Pow2(i) / 2 == Pow2(i - 1);
      MaskTest(x / 2, i - 1);
    } else {
      assert And(x / 2, 0) == 0;
    }
  }

  lemma {:induction false} XorCancels(x: nat, y: nat)
    ensures Xor(Xor(x, y), y) == x
  {
    if x != 0 || y != 0 {
      XorCancels(x / 2, y / 2);
      assert Xor(x, y) / 2 == Xor(x / 2, y / 2);
    }
  }

  /** Reducing modulo 2^width keeps exactly the bits below width. */
  lemma {:induction false} BitOfTruncated(x: nat, width: nat, j: nat)
    ensures Bit(x % Pow2(width), j) <==> j < width && Bit(x, j)
  {
    if width == 0 {
      BitOfZero(j);
    } else {
      var half := Pow2(width - 1);
      HalveModulus(x, half);
      if j > 0 {
        BitOfTruncated(x / 2, width - 1, j - 1);
      }
    }
  }

  lemma HalveModulus(x: nat, half: nat)
    requires half > 0
    ensures (x % (2 * half)) % 2 == x % 2
    ensures (x % (2 * half)) / 2 == (x / 2) % half
    ensures (x / 2) / half == x / (2 * half)
  {
    var q, r := x / (2 * half), x % (2 * half);
    var p := q * half;
    assert x == 2 * p + r by {
      assert q * (2 * half) == 2 * p;
    }
    assert x / 2 == p + r / 2 && x % 2 == r % 2;
    ModuloUnique(x / 2, half, q, r / 2);
  }

  lemma ModuloUnique(x: nat, m: nat, q: nat, r: nat)
    requires r < m && x == q * m + r
    ensures x % m == r && x / m == q
  {
    var p := x / m;
    assert x == p * m + x % m;
    if p < q {
      AtLeastOnce(q - p, m);
      assert false;
    } else if p > q {
      AtLeastOnce(p - q, m);
      assert false;
    }
  }

  lemma {:induction false} AtLeastOnce(d: nat, m: nat)
    requires d >= 1
    ensures d * m >= m
  {
    if d > 1 {
      AtLeastOnce(d - 1, m);
    }
  }

  lemma {:induction false} BitOfProduct(x: nat, k: nat, j: nat)
    ensures Bit(x * Pow2(k), j) <==> j >= k && Bit(x, j - k)
  {
    if k > 0 {
      assert x * Pow2(k) == 2 * (x * Pow2(k - 1));
      if j > 0 {
        BitOfProduct(x, k - 1, j - 1);
      }
    }
  }

  lemma BitOfShiftLeft(x: nat, k: nat, width: nat, j: nat)
    ensures Bit(ShiftLeft(x, k, width), j) <==> k <= j < width && Bit(x, j - k)
  {
    BitOfTruncated(x * Pow2(k), width, j);
    BitOfProduct(x, k, j);
  }

  /** 2^k - 1 is k ones. */
  lemma {:induction false} BitOfLowOnes(k: nat, j: nat)
    ensures Bit(Pow2(k) - 1, j) <==> j < k
  {
    if k == 0 {
      BitOfZero(j);
    } else {
      assert (Pow2(k) - 1) / 2 == Pow2(k - 1) - 1;
      if j > 0 {
        BitOfLowOnes(k - 1, j - 1);
      }
    }
  }
}
