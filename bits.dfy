/** Bit-level arithmetic on unbounded naturals.
    A machine word of width w is a nat below Pow2(w); bit i is Bit(x, i).
    Shifts and the bitwise operators are defined bit by bit (halving and
    doubling), so that the word helpers of the packed vector can be written
    with the same operators as the C++ and proved against their meaning. */
module Bits {

  function Pow2(n: nat): (r: nat)
    ensures r >= 1
  {
    if n == 0 then 1 else 2 * Pow2(n - 1)
  }

  /** Bit i of x; bit 0 is the least significant one. */
  predicate Bit(x: nat, i: nat)
  {
    if i == 0 then x % 2 == 1 else Bit(x / 2, i - 1)
  }

  /** `x >> s`, that is x / 2^s. */
  function Shr(x: nat, s: nat): nat
  {
    if s == 0 then x else Shr(x / 2, s - 1)
  }

  /** `x << s`, that is x * 2^s, without truncation. */
  function Shl(x: nat, s: nat): nat
  {
    if s == 0 then x else 2 * Shl(x, s - 1)
  }

  /** The low n bits of x, that is x mod 2^n. */
  function Low(x: nat, n: nat): nat
  {
    if n == 0 then 0 else x % 2 + 2 * Low(x / 2, n - 1)
  }

  /** Two's-complement value of the n-bit pattern u. */
  function Signed(u: nat, n: nat): int
    requires n >= 1
  {
    if u < Pow2(n - 1) then u else u - Pow2(n)
  }

  function And(a: nat, b: nat): nat
    decreases a
  {
    if a == 0 || b == 0 then 0
    else 2 * And(a / 2, b / 2) + (if a % 2 == 1 && b % 2 == 1 then 1 else 0)
  }

  function Or(a: nat, b: nat): nat
    decreases a
  {
    if a == 0 then b
    else if b == 0 then a
    else 2 * Or(a / 2, b / 2) + (if a % 2 == 1 || b % 2 == 1 then 1 else 0)
  }

  function Xor(a: nat, b: nat): nat
    decreases a
  {
    if a == 0 then b
    else if b == 0 then a
    else 2 * Xor(a / 2, b / 2) + (if (a % 2 == 1) != (b % 2 == 1) then 1 else 0)
  }

  /** `~m` at width w. */
  function Not(m: nat, w: nat): nat
  {
    Xor(m, Pow2(w) - 1)
  }

  /** The product of two naturals. */
  function Mul(a: nat, b: nat): nat
  {
    a * b
  }

  /** `x << s` evaluated in a 32-bit integer: bits shifted past bit 31 are lost. */
  function Shl32(x: nat, s: nat): nat
  {
    Low(Shl(x, s), 32)
  }

  // ---------------------------------------------------------------------
  // Arithmetic facts.

  lemma {:induction false} Pow2Mono(a: nat, b: nat)
    requires a <= b
    ensures Pow2(a) <= Pow2(b)
    decreases b
  {
    if a < b {
      Pow2Mono(a, b - 1);
    }
  }

  lemma Pow2Eight()
    ensures Pow2(8) == 256
  {
  }

  lemma Pow2PlusEight(n: nat)
    ensures Pow2(n + 8) == 256 * Pow2(n)
  {
    assert Pow2(n + 8) == 2 * Pow2(n + 7) == 4 * Pow2(n + 6) == 8 * Pow2(n + 5) == 16 * Pow2(n + 4);
    assert Pow2(n + 4) == 2 * Pow2(n + 3) == 4 * Pow2(n + 2) == 8 * Pow2(n + 1) == 16 * Pow2(n);
  }

  lemma ShlEight(x: nat)
    ensures Shl(x, 8) == 256 * x
  {
    assert Shl(x, 1) == 2 * x;
    assert Shl(x, 2) == 4 * x;
    assert Shl(x, 3) == 8 * x;
    assert Shl(x, 4) == 16 * x;
    assert Shl(x, 5) == 32 * x;
    assert Shl(x, 6) == 64 * x;
    assert Shl(x, 7) == 128 * x;
  }

  lemma DivModUnique(x: int, d: int, q: int, r: int)
    requires d > 0 && 0 <= r < d && x == d * q + r
    ensures x / d == q && x % d == r
  {
    var q', r' := x / d, x % d;
    var k := q - q';
    assert d * q == d * q' + d * k;
    if k >= 1 {
      MulAtLeast(d, k);
    } else if k <= -1 {
      MulAtLeast(d, -k);
    }
  }

  lemma MulAtLeast(d: int, k: int)
    requires d > 0 && k >= 1
    ensures d * k >= d
  {
  }

  // ---------------------------------------------------------------------
  // What each operation does to the bits.

  lemma {:induction false} BitZero(i: nat)
    ensures !Bit(0, i)
  {
    if i > 0 {
      BitZero(i - 1);
    }
  }

  lemma BitDouble(y: nat, b: nat, i: nat)
    requires b < 2
    ensures Bit(2 * y + b, i) <==> if i == 0 then b == 1 else Bit(y, i - 1)
  {
    assert (2 * y + b) / 2 == y;
  }

  lemma {:induction false} BitShr(x: nat, s: nat, j: nat)
    ensures Bit(Shr(x, s), j) <==> Bit(x, s + j)
  {
    if s > 0 {
      BitShr(x / 2, s - 1, j);
    }
  }

  lemma {:induction false} BitShl(x: nat, s: nat, j: nat)
    ensures Bit(Shl(x, s), j) <==> j >= s && Bit(x, j - s)
  {
    if s > 0 {
      BitDouble(Shl(x, s - 1), 0, j);
      if j > 0 {
        BitShl(x, s - 1, j - 1);
      }
    }
  }

  lemma {:induction false} BitLow(x: nat, n: nat, j: nat)
    ensures Bit(Low(x, n), j) <==> j < n && Bit(x, j)
  {
    if n == 0 {
      BitZero(j);
    } else {
      BitDouble(Low(x / 2, n - 1), x % 2, j);
      if j > 0 {
        BitLow(x / 2, n - 1, j - 1);
      }
    }
  }

  lemma {:induction false} LowBound(x: nat, n: nat)
    ensures Low(x, n) < Pow2(n)
  {
    if n > 0 {
      LowBound(x / 2, n - 1);
    }
  }

  lemma {:induction false} LowSmall(x: nat, n: nat)
    requires x < Pow2(n)
    ensures Low(x, n) == x
  {
    if n > 0 {
      LowSmall(x / 2, n - 1);
    }
  }

  lemma {:induction false} BitLowMask(k: nat, j: nat)
    ensures Bit(Pow2(k) - 1, j) <==> j < k
  {
    if k == 0 {
      BitZero(j);
    } else {
      assert Pow2(k) - 1 == 2 * (Pow2(k - 1) - 1) + 1;
      BitDouble(Pow2(k - 1) - 1, 1, j);
      if j > 0 {
        BitLowMask(k - 1, j - 1);
      }
    }
  }

  lemma {:induction false} BitAbove(x: nat, w: nat, j: nat)
    requires x < Pow2(w) && j >= w
    ensures !Bit(x, j)
  {
    if w == 0 {
      BitZero(j);
    } else if j > 0 {
      BitAbove(x / 2, w - 1, j - 1);
    }
  }

  /** Bits of `lo + (hi << k)` when lo fits in k bits. */
  lemma {:induction false} BitSplit(lo: nat, hi: nat, k: nat, j: nat)
    requires lo < Pow2(k)
    ensures Bit(lo + Shl(hi, k), j) <==> if j < k then Bit(lo, j) else Bit(hi, j - k)
  {
    if k > 0 {
      assert lo + Shl(hi, k) == 2 * (lo / 2 + Shl(hi, k - 1)) + lo % 2;
      BitDouble(lo / 2 + Shl(hi, k - 1), lo % 2, j);
      BitDouble(lo / 2, lo % 2, j);
      if j > 0 {
        BitSplit(lo / 2, hi, k - 1, j - 1);
      }
    }
  }

  /** Two words of width w that agree on bits 0..w-1 are equal. */
  lemma {:induction false} Extensionality(x: nat, y: nat, w: nat)
    requires x < Pow2(w) && y < Pow2(w)
    requires forall j: nat :: j < w ==> (Bit(x, j) <==> Bit(y, j))
    ensures x == y
  {
    if w > 0 {
      forall j: nat | j < w - 1
        ensures Bit(x / 2, j) <==> Bit(y / 2, j)
      {
        assert Bit(x, j + 1) <==> Bit(y, j + 1);
      }
      Extensionality(x / 2, y / 2, w - 1);
      assert Bit(x, 0) <==> Bit(y, 0);
    }
  }

  /** For a (k+1)-bit value, bit k is set exactly when the value is at least 2^k. */
  lemma {:induction false} BitHighHalf(v: nat, k: nat)
    requires v < Pow2(k + 1)
    ensures Bit(v, k) <==> v >= Pow2(k)
  {
    if k > 0 {
      BitHighHalf(v / 2, k - 1);
    }
  }

  // ---------------------------------------------------------------------
  // The bitwise operators, bit by bit.

  lemma {:induction false} AndBit(a: nat, b: nat, j: nat)
    ensures Bit(And(a, b), j) <==> Bit(a, j) && Bit(b, j)
    decreases a
  {
    if a == 0 || b == 0 {
      BitZero(j);
    } else {
      BitDouble(And(a / 2, b / 2), if a % 2 == 1 && b % 2 == 1 then 1 else 0, j);
      if j > 0 {
        AndBit(a / 2, b / 2, j - 1);
      }
    }
  }

  lemma {:induction false} OrBit(a: nat, b: nat, j: nat)
    ensures Bit(Or(a, b), j) <==> Bit(a, j) || Bit(b, j)
    decreases a
  {
    if a == 0 || b == 0 {
      BitZero(j);
    } else {
      BitDouble(Or(a / 2, b / 2), if a % 2 == 1 || b % 2 == 1 then 1 else 0, j);
      if j > 0 {
        OrBit(a / 2, b / 2, j - 1);
      }
    }
  }

  lemma {:induction false} XorBit(a: nat, b: nat, j: nat)
    ensures Bit(Xor(a, b), j) <==> Bit(a, j) != Bit(b, j)
    decreases a
  {
    if a == 0 || b == 0 {
      BitZero(j);
    } else {
      BitDouble(Xor(a / 2, b / 2), if (a % 2 == 1) != (b % 2 == 1) then 1 else 0, j);
      if j > 0 {
        XorBit(a / 2, b / 2, j - 1);
      }
    }
  }

  lemma {:induction false} AndBound(a: nat, b: nat, w: nat)
    requires a < Pow2(w) || b < Pow2(w)
    ensures And(a, b) < Pow2(w)
    decreases a
  {
    if a != 0 && b != 0 {
      AndBound(a / 2, b / 2, w - 1);
    }
  }

  lemma {:induction false} XorBound(a: nat, b: nat, w: nat)
    requires a < Pow2(w) && b < Pow2(w)
    ensures Xor(a, b) < Pow2(w)
    decreases a
  {
    if a != 0 && b != 0 {
      XorBound(a / 2, b / 2, w - 1);
    }
  }

  /** Flipping bit k adds or subtracts 2^k. */
  lemma {:induction false} XorSingleBit(v: nat, k: nat)
    ensures Xor(v, Pow2(k)) == if Bit(v, k) then v - Pow2(k) else v + Pow2(k)
    decreases v
  {
    if v == 0 {
      BitZero(k);
    } else if k == 0 {
      assert Xor(v / 2, 0) == v / 2;
    } else {
      XorSingleBit(v / 2, k - 1);
    }
  }

  /** Masking with 2^k - 1 keeps the low k bits. */
  lemma AndLowMask(x: nat, k: nat)
    ensures And(x, Pow2(k) - 1) == Low(x, k)
  {
    forall j: nat | j < k
      ensures Bit(And(x, Pow2(k) - 1), j) <==> Bit(Low(x, k), j)
    {
      AndBit(x, Pow2(k) - 1, j);
      BitLowMask(k, j);
      BitLow(x, k, j);
    }
    AndBound(x, Pow2(k) - 1, k);
    LowBound(x, k);
    Extensionality(And(x, Pow2(k) - 1), Low(x, k), k);
  }
}
