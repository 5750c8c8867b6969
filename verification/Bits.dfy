/** Bitwise operators on natural numbers, defined digit by digit, and the arithmetic
    facts the kernel's masks and shifts rely on. */
module Bits {
  import Arithmetic

  /** One more than the largest 32-bit and 64-bit values. */
  const U32: nat := 0x1_0000_0000
  const WORD_LIMIT: nat := 0x1_0000_0000_0000_0000

  /** A value that fits an unsigned byte. */
  type Byte = x: int | 0 <= x < 256

  datatype Option<+T> = None | Some(value: T)

  function Pow2(k: nat): (r: nat)
    ensures r >= 1
  {
    if k == 0 then 1 else 2 * Pow2(k - 1)
  }

  function BitAnd(a: nat, b: nat): nat {
    if a == 0 then 0
    else (if a % 2 == 1 && b % 2 == 1 then 1 else 0) + 2 * BitAnd(a / 2, b / 2)
  }

  function BitOr(a: nat, b: nat): nat {
    if a == 0 then b
    else (if a % 2 == 1 || b % 2 == 1 then 1 else 0) + 2 * BitOr(a / 2, b / 2)
  }

  predicate Bit(a: nat, k: nat) {
    if k == 0 then a % 2 == 1 else Bit(a / 2, k - 1)
  }

  // ---- single bits ---------------------------------------------------------

  lemma {:induction false} BitOfZero(k: nat)
    ensures !Bit(0, k)
  {
    if k == 0 {
    } else {
      BitOfZero(k - 1);
    }
  }

  lemma {:induction false} BitOfOr(a: nat, b: nat, k: nat)
    ensures Bit(BitOr(a, b), k) <==> Bit(a, k) || Bit(b, k)
  {
    if a == 0 {
      BitOfZero(k);
    } else if k > 0 {
      assert BitOr(a, b) / 2 == BitOr(a / 2, b / 2);
      BitOfOr(a / 2, b / 2, k - 1);
    }
  }

  lemma {:induction false} BitOfAnd(a: nat, b: nat, k: nat)
    ensures Bit(BitAnd(a, b), k) <==> Bit(a, k) && Bit(b, k)
  {
    if a == 0 {
      BitOfZero(k);
    } else if k > 0 {
      assert BitAnd(a, b) / 2 == BitAnd(a / 2, b / 2);
      BitOfAnd(a / 2, b / 2, k - 1);
    }
  }

  lemma {:induction false} BitOfPow2(j: nat, k: nat)
    ensures Bit(Pow2(j), k) <==> j == k
  {
    if j == 0 {
      if k > 0 { BitOfZero(k - 1); }
    } else if k > 0 {
      assert Pow2(j) / 2 == Pow2(j - 1);
      BitOfPow2(j - 1, k - 1);
    }
  }

  /** `a & (1 << k)` is non-zero exactly when bit k of `a` is set. */
  lemma {:induction false} AndPow2(a: nat, k: nat)
    ensures BitAnd(a, Pow2(k)) != 0 <==> Bit(a, k)
  {
    if a == 0 {
      BitOfZero(k);
    } else if k == 0 {
      AndZero(a / 2);
    } else {
      assert Pow2(k) / 2 == Pow2(k - 1);
      AndPow2(a / 2, k - 1);
    }
  }

  /** Bit k is the last one of the quotient by 2^k. */
  lemma {:induction false} BitIsDigit(a: nat, k: nat)
    ensures Bit(a, k) <==> a / Pow2(k) % 2 == 1
  {
    if k == 0 {
    } else {
      BitIsDigit(a / 2, k - 1);
      HalvedQuotient(a, Pow2(k - 1));
    }
  }

  lemma HalvedQuotient(a: nat, d: nat)
    requires d > 0
    ensures a / (2 * d) == a / 2 / d
  {
    var q, r := a / (2 * d), a % (2 * d);
    assert a == 2 * (d * q) + r;
    Arithmetic.DivModUnique(a / 2, d, q, r / 2);
  }

  lemma {:induction false} AndZero(a: nat)
    ensures BitAnd(a, 0) == 0
  {
    if a == 0 {
    } else {
      AndZero(a / 2);
    }
  }

  // ---- shifts and whole masks ----------------------------------------------

  /** `x << k` without overflow. */
  function Shl(x: nat, k: nat): nat {
    if k == 0 then x else 2 * Shl(x, k - 1)
  }

  lemma {:induction false} ShlIsProduct(x: nat, k: nat)
    ensures Shl(x, k) == Pow2(k) * x
  {
    if k == 0 {
    } else {
      ShlIsProduct(x, k - 1);
      DoubleProduct(Pow2(k - 1), x);
    }
  }

  lemma DoubleProduct(p: nat, q: nat)
    ensures (2 * p) * q == 2 * (p * q)
  {
  }

  /** And works independently on the bits below and from position k. */
  lemma {:induction false} AndSplit(k: nat, q: nat, r: nat, m: nat, n: nat)
    requires r < Pow2(k) && n < Pow2(k)
    ensures BitAnd(Shl(q, k) + r, Shl(m, k) + n) == Shl(BitAnd(q, m), k) + BitAnd(r, n)
  {
    hide BitAnd;
    if k > 0 {
      AndSplit(k - 1, q, r / 2, m, n / 2);
      AndHalves(Shl(q, k) + r, Shl(m, k) + n);
      AndHalves(r, n);
    } else {
      AndZero(0);
    }
  }

  lemma AndHalves(a: nat, b: nat)
    ensures BitAnd(a, b) == (if a % 2 == 1 && b % 2 == 1 then 1 else 0) + 2 * BitAnd(a / 2, b / 2)
  {
  }

  lemma {:induction false} AndAllOnes(r: nat, k: nat)
    requires r < Pow2(k)
    ensures BitAnd(r, Pow2(k) - 1) == r
  {
    hide BitAnd;
    if k == 0 {
      AndZero(0);
    } else {
      AndHalves(r, Pow2(k) - 1);
      AndAllOnes(r / 2, k - 1);
      assert (Pow2(k) - 1) / 2 == Pow2(k - 1) - 1 && (Pow2(k) - 1) % 2 == 1;
    }
  }

  /** `a & (2^k - 1)`, for a = 2^k * q + r, is r. */
  lemma AndLowMask(k: nat, q: nat, r: nat)
    requires r < Pow2(k)
    ensures BitAnd(Shl(q, k) + r, Pow2(k) - 1) == r
  {
    AndSplit(k, q, r, 0, Pow2(k) - 1);
    ShlZero(k);
    AndZero(q);
    AndAllOnes(r, k);
  }

  /** `a & ~(2^k - 1)`, for a (k+w)-bit value a = 2^k * q + r, is 2^k * q. */
  lemma AndHighMask(k: nat, w: nat, q: nat, r: nat)
    requires r < Pow2(k) && q < Pow2(w)
    ensures BitAnd(Shl(q, k) + r, Shl(Pow2(w) - 1, k)) == Shl(q, k)
  {
    AndSplit(k, q, r, Pow2(w) - 1, 0);
    AndZero(r);
    AndAllOnes(q, w);
  }

  lemma {:induction false} ShlZero(k: nat)
    ensures Shl(0, k) == 0
  {
    if k == 0 {
    } else {
      ShlZero(k - 1);
    }
  }

  /** Or-ing bits below 2^k into a multiple of 2^k is addition. */
  lemma {:induction false} OrDisjoint(x: nat, k: nat, y: nat)
    requires y < Pow2(k)
    ensures BitOr(Shl(x, k), y) == Shl(x, k) + y
  {
    if k == 0 {
      OrZero(x);
    } else {
      OrDisjoint(x, k - 1, y / 2);
    }
  }

  lemma {:induction false} OrZero(a: nat)
    ensures BitOr(a, 0) == a
  {
    if a == 0 {
    } else {
      OrZero(a / 2);
    }
  }

  lemma {:induction false} OrCommutes(a: nat, b: nat)
    ensures BitOr(a, b) == BitOr(b, a)
  {
    if a == 0 {
      OrZero(b);
    } else if b == 0 {
      OrZero(a);
    } else {
      OrCommutes(a / 2, b / 2);
    }
  }

  lemma {:induction false} OrBound(a: nat, b: nat, k: nat)
    requires a < Pow2(k) && b < Pow2(k)
    ensures BitOr(a, b) < Pow2(k)
  {
    if a == 0 {
    } else {
      assert k > 0;
      OrBound(a / 2, b / 2, k - 1);
    }
  }

  lemma {:induction false} AndBound(a: nat, b: nat)
    ensures BitAnd(a, b) <= a
  {
    if a == 0 {
    } else {
      AndBound(a / 2, b / 2);
    }
  }

  lemma PowersUsed()
    ensures Pow2(2) == 4 && Pow2(3) == 8 && Pow2(4) == 16 && Pow2(6) == 64 && Pow2(8) == 256
    ensures Pow2(9) == 512 && Pow2(12) == 4096 && Pow2(18) == 0x4_0000
    ensures Pow2(32) == 0x1_0000_0000
    ensures Pow2(52) == 0x10_0000_0000_0000
    ensures Pow2(63) == 0x8000_0000_0000_0000
    ensures Pow2(64) == 0x1_0000_0000_0000_0000
  {
    assert Pow2(8) == 256;
    assert Pow2(16) == 0x1_0000;
    assert Pow2(24) == 0x100_0000;
    assert Pow2(32) == 0x1_0000_0000;
    assert Pow2(40) == 0x100_0000_0000;
    assert Pow2(48) == 0x1_0000_0000_0000;
    assert Pow2(52) == 0x10_0000_0000_0000;
    assert Pow2(56) == 0x100_0000_0000_0000;
  }

  // ---- little-endian words ---------------------------------------------------

  function FromLE(b: seq<Byte>): nat {
    if |b| == 0 then 0 else b[0] + 256 * FromLE(b[1..])
  }

  function ToLE(v: nat, n: nat): (b: seq<Byte>)
    ensures |b| == n
  {
    if n == 0 then [] else [v % 256] + ToLE(v / 256, n - 1)
  }

  function Pow256(n: nat): nat {
    if n == 0 then 1 else 256 * Pow256(n - 1)
  }

  lemma {:induction false} FromToLE(v: nat, n: nat)
    requires v < Pow256(n)
    ensures FromLE(ToLE(v, n)) == v
  {
    if n == 0 {
    } else {
      assert ToLE(v, n)[1..] == ToLE(v / 256, n - 1);
      FromToLE(v / 256, n - 1);
    }
  }

  lemma {:induction false} FromLEBound(b: seq<Byte>)
    ensures FromLE(b) < Pow256(|b|)
  {
    if |b| == 0 {
    } else {
      FromLEBound(b[1..]);
    }
  }

  lemma {:induction false} FromLEZero(b: seq<Byte>)
    requires forall i :: 0 <= i < |b| ==> b[i] == 0
    ensures FromLE(b) == 0
  {
    if |b| == 0 {
    } else {
      FromLEZero(b[1..]);
    }
  }
}
