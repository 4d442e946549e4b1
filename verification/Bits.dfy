/**
 * Unsigned bit patterns as natural numbers. Every operator is defined by its arithmetic, one bit
 * at a time, and characterised by the bits of its result; two numbers with the same bits are equal.
 */
module Bits {

  predicate Bit(n: nat, i: nat) {
    if i == 0 then n % 2 == 1 else Bit(n / 2, i - 1)
  }

  function Pow2(k: nat): (p: nat)
    ensures p > 0
  {
    if k == 0 then 1 else 2 * Pow2(k - 1)
  }

  function And(a: nat, b: nat): nat {
    if a == 0 || b == 0 then 0
    else (if a % 2 == 1 && b % 2 == 1 then 1 else 0) + 2 * And(a / 2, b / 2)
  }

  function Or(a: nat, b: nat): nat {
    if a == 0 then b else if b == 0 then a
    else (if a % 2 == 1 || b % 2 == 1 then 1 else 0) + 2 * Or(a / 2, b / 2)
  }

  /** `n << k`, unbounded. */
  function Shl(n: nat, k: nat): nat {
    if k == 0 then n else 2 * Shl(n, k - 1)
  }

  /** `n >> k`. */
  function Shr(n: nat, k: nat): nat {
    if k == 0 then n else Shr(n / 2, k - 1)
  }

  /** The low `k` bits of `n`: what a cast to a `k`-bit type keeps. */
  function Low(n: nat, k: nat): nat {
    if k == 0 then 0 else n % 2 + 2 * Low(n / 2, k - 1)
  }

  /** `!n` in a `k`-bit type. */
  function Not(n: nat, k: nat): nat {
    if k == 0 then 0 else 1 - n % 2 + 2 * Not(n / 2, k - 1)
  }

  /** The number of trailing zero bits of a nonzero number. */
  function TrailingZeros(n: nat): nat
    requires n != 0
  {
    if n % 2 == 1 then 0 else 1 + TrailingZeros(n / 2)
  }

  lemma {:induction false} Extensional(a: nat, b: nat)
    requires forall i: nat :: Bit(a, i) == Bit(b, i)
    ensures a == b
    decreases a + b
  {
    if a != b {
      assert Bit(a, 0) == Bit(b, 0);
      forall i: nat ensures Bit(a / 2, i) == Bit(b / 2, i) {
        assert Bit(a, i + 1) == Bit(b, i + 1);
      }
      if a + b > 0 { Extensional(a / 2, b / 2); }
    }
  }

  lemma {:induction false} ZeroBits(i: nat)
    ensures !Bit(0, i)
  {
    if i > 0 { ZeroBits(i - 1); }
  }

  lemma {:induction false} AndBit(a: nat, b: nat, i: nat)
    ensures Bit(And(a, b), i) == (Bit(a, i) && Bit(b, i))
    decreases i
  {
    ZeroBits(i);
    if a != 0 && b != 0 && i > 0 { AndBit(a / 2, b / 2, i - 1); }
  }

  lemma {:induction false} OrBit(a: nat, b: nat, i: nat)
    ensures Bit(Or(a, b), i) == (Bit(a, i) || Bit(b, i))
    decreases i
  {
    ZeroBits(i);
    if a != 0 && b != 0 && i > 0 { OrBit(a / 2, b / 2, i - 1); }
  }

  lemma {:induction false} ShlBit(n: nat, k: nat, i: nat)
    ensures Bit(Shl(n, k), i) == (k <= i && Bit(n, i - k))
    decreases k
  {
    if k > 0 {
      assert Shl(n, k) / 2 == Shl(n, k - 1);
      if i > 0 { ShlBit(n, k - 1, i - 1); }
    }
  }

  lemma {:induction false} ShrBit(n: nat, k: nat, i: nat)
    ensures Bit(Shr(n, k), i) == Bit(n, i + k)
    decreases k
  {
    if k > 0 { ShrBit(n / 2, k - 1, i); }
  }

  lemma {:induction false} LowBit(n: nat, k: nat, i: nat)
    ensures Bit(Low(n, k), i) == (i < k && Bit(n, i))
    decreases k
  {
    if k == 0 {
      ZeroBits(i);
    } else {
      assert Low(n, k) / 2 == Low(n / 2, k - 1);
      if i > 0 { LowBit(n / 2, k - 1, i - 1); }
    }
  }

  lemma {:induction false} NotBit(n: nat, k: nat, i: nat)
    ensures Bit(Not(n, k), i) == (i < k && !Bit(n, i))
    decreases k
  {
    if k == 0 {
      ZeroBits(i);
    } else {
      assert Not(n, k) / 2 == Not(n / 2, k - 1);
      if i > 0 { NotBit(n / 2, k - 1, i - 1); }
    }
  }

  lemma {:induction false} TrailingZerosBit(n: nat, i: nat)
    requires n != 0
    ensures i < TrailingZeros(n) ==> !Bit(n, i)
    decreases i
  {
    if n % 2 == 0 && i > 0 { TrailingZerosBit(n / 2, i - 1); }
  }

  // ---------- Arithmetic meaning ----------

  lemma {:induction false} LowBound(n: nat, k: nat)
    ensures Low(n, k) < Pow2(k)
    decreases k
  {
    if k > 0 { LowBound(n / 2, k - 1); }
  }

  lemma {:induction false} LowIdentity(n: nat, k: nat)
    requires n < Pow2(k)
    ensures Low(n, k) == n
    decreases k
  {
    if k > 0 { LowIdentity(n / 2, k - 1); }
  }

  /** A number below `2^k` has no bit at or above `k`. */
  lemma HighBits(n: nat, k: nat, i: nat)
    requires n < Pow2(k) && k <= i
    ensures !Bit(n, i)
  {
    LowIdentity(n, k);
    LowBit(n, k, i);
  }

  lemma LowBitsOnly(n: nat, k: nat)
    requires forall i: nat :: i >= k ==> !Bit(n, i)
    ensures n < Pow2(k)
  {
    forall i: nat ensures Bit(Low(n, k), i) == Bit(n, i) {
      LowBit(n, k, i);
    }
    Extensional(Low(n, k), n);
    LowBound(n, k);
  }

  /** A number put above `k` lower bits: the sum only juxtaposes the two. */
  lemma {:induction false} JoinBit(x: nat, b: nat, k: nat, i: nat)
    requires b < Pow2(k)
    ensures Bit(Shl(x, k) + b, i) == if i < k then Bit(b, i) else Bit(x, i - k)
    decreases k
  {
    if k > 0 {
      assert (Shl(x, k) + b) / 2 == Shl(x, k - 1) + b / 2;
      if i > 0 { JoinBit(x, b / 2, k - 1, i - 1); }
    }
  }

  lemma Octet(x: nat)
    ensures Pow2(8) == 256 && Shl(x, 8) == 256 * x
  {
    assert Pow2(1) == 2 && Pow2(2) == 4 && Pow2(4) == 16 && Pow2(6) == 64;
    assert Shl(x, 1) == 2 * x && Shl(x, 2) == 4 * x && Shl(x, 3) == 8 * x && Shl(x, 4) == 16 * x;
    assert Shl(x, 5) == 32 * x && Shl(x, 6) == 64 * x && Shl(x, 7) == 128 * x;
  }

  lemma Doubled(a: nat, b: nat)
    ensures a * (2 * b) == 2 * (a * b)
  {
  }

  lemma {:induction false} ShlIs(n: nat, k: nat)
    ensures Shl(n, k) == n * Pow2(k)
    decreases k
  {
    if k > 0 {
      ShlIs(n, k - 1);
      Doubled(n, Pow2(k - 1));
    }
  }

  lemma {:induction false} SplitAt(n: nat, k: nat)
    ensures Shl(Shr(n, k), k) + Low(n, k) == n
    decreases k
  {
    if k > 0 { SplitAt(n / 2, k - 1); }
  }

  lemma DivModUnique(n: nat, q: nat, r: nat, d: nat)
    requires n == q * d + r && r < d
    ensures n / d == q && n % d == r
  {
    var p := n / d;
    assert n == p * d + n % d;
    if p < q { Apart(p, q, d); }
    if q < p { Apart(q, p, d); }
  }

  lemma Next(p: nat, d: nat)
    ensures (p + 1) * d == p * d + d
  {
  }

  lemma {:induction false} Apart(p: nat, q: nat, d: nat)
    requires p < q
    ensures q * d >= p * d + d
    decreases q
  {
    Next(q - 1, d);
    if p < q - 1 { Apart(p, q - 1, d); }
  }

  /** `Shr` and `Low` are quotient and remainder by a power of two. */
  lemma DivModPow2(n: nat, k: nat)
    ensures Shr(n, k) == n / Pow2(k) && Low(n, k) == n % Pow2(k)
  {
    SplitAt(n, k);
    ShlIs(Shr(n, k), k);
    LowBound(n, k);
    DivModUnique(n, Shr(n, k), Low(n, k), Pow2(k));
  }

  /** The lowest set bit of a nonzero number is at its count of trailing zeros. */
  lemma {:induction false} LowestBit(n: nat)
    requires n != 0
    ensures Bit(n, TrailingZeros(n))
  {
    if n % 2 == 0 { LowestBit(n / 2); }
  }
}
