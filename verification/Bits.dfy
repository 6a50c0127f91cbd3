/**
 Bit-level arithmetic on unsigned words, as the queue, ring buffer and histogram use it:
 shifts, masks, leading-zero counts and rounding up to a power of two.
 Words are natural numbers; only where the source shifts a 32-bit one does the width matter.
 */
module Bits {

  function Pow2(k: nat): (p: nat)
    ensures p >= 1
  {
    if k == 0 then 1 else 2 * Pow2(k - 1)
  }

  /** `n * count` as repeated addition; keeps a product of two variables out of larger proofs. */
  function Times(n: nat, count: nat): nat {
    if count == 0 then 0 else n + Times(n, count - 1)
  }

  lemma {:induction false} TimesIsProduct(n: nat, count: nat)
    ensures Times(n, count) == n * count
  {
    if count > 0 {
      TimesIsProduct(n, count - 1);
    }
  }

  lemma {:induction false} TimesMonotone(n: nat, m: nat, count: nat)
    requires n <= m
    ensures Times(n, count) <= Times(m, count)
  {
    if count > 0 {
      TimesMonotone(n, m, count - 1);
    }
  }

  /** `n << k` */
  function Shl(n: nat, k: nat): nat {
    n * Pow2(k)
  }

  /** `n >> k` */
  function Shr(n: nat, k: nat): nat {
    Quotient(n, Pow2(k));
    n / Pow2(k)
  }

  /** The quotient and remainder of a division, as facts about a product. */
  lemma Quotient(n: nat, d: int)
    requires d > 0
    ensures n == d * (n / d) + n % d && 0 <= n % d < d && 0 <= n / d <= n
  {
    var q := n / d;
    if q < 0 {
      MulAtLeast(-q, d);
    } else if q > n {
      MulAtLeast(d, q);
    }
  }

  /** Position of the highest set bit plus one, i.e. `64 - clz(n)` for a 64-bit word. */
  function BitLen(n: nat): nat {
    if n == 0 then 0 else 1 + BitLen(n / 2)
  }

  function BitAnd(a: nat, b: nat): nat
    decreases a
  {
    if a == 0 || b == 0 then 0
    else 2 * BitAnd(a / 2, b / 2) + (if a % 2 == 1 && b % 2 == 1 then 1 else 0)
  }

  function BitOr(a: nat, b: nat): nat
    decreases a + b
  {
    if a == 0 && b == 0 then 0
    else 2 * BitOr(a / 2, b / 2) + (if a % 2 == 1 || b % 2 == 1 then 1 else 0)
  }

  ghost predicate PowerOfTwo(n: nat) {
    exists k: nat :: n == Pow2(k)
  }

  /** toolbox/util/Math.hpp `is_pow2` */
  predicate IsPow2(n: nat) {
    n > 0 && BitAnd(n, n - 1) == 0
  }

  /** `1 << k` of a 32-bit signed one, widened to an unsigned 64-bit word: the topmost bit is a sign. */
  function ShlOne(k: nat): nat
    requires k < 32
  {
    if k == 31 then 0xffff_ffff_8000_0000 else Shl(1, k)
  }

  /** Beyond this capacity the 32-bit shift no longer gives the power of two. */
  const MAX_ROUNDED: nat := 0x4000_0000

  /** toolbox/util/Math.hpp `next_pow2`, for the words whose shift count C++ allows. */
  function NextPow2(n: nat): nat
    requires n <= 2 * MAX_ROUNDED
  {
    ShiftCount(n);
    if n <= 1 then 1 else ShlOne(BitLen(n - 1))
  }

  lemma {:induction false} Pow2Add(a: nat, b: nat)
    ensures Pow2(a + b) == Pow2(a) * Pow2(b)
  {
    if a > 0 {
      Pow2Add(a - 1, b);
      assert a + b - 1 == (a - 1) + b;
    }
  }

  lemma {:induction false} Pow2Monotone(a: nat, b: nat)
    requires a <= b
    ensures Pow2(a) <= Pow2(b)
    ensures a < b ==> 2 * Pow2(a) <= Pow2(b)
  {
    if a < b {
      Pow2Monotone(a, b - 1);
    }
  }

  lemma {:induction false} BitLenBounds(n: nat)
    requires n > 0
    ensures BitLen(n) >= 1
    ensures Pow2(BitLen(n) - 1) <= n < Pow2(BitLen(n))
  {
    if n > 1 {
      BitLenBounds(n / 2);
    } else {
      assert BitLen(n / 2) == 0;
      assert Pow2(1) == 2 * Pow2(0);
    }
  }

  /** The bit length is determined by the two powers of two around the word. */
  lemma BitLenUnique(n: nat, k: nat)
    requires k >= 1 && Pow2(k - 1) <= n < Pow2(k)
    ensures BitLen(n) == k
  {
    BitLenBounds(n);
    if BitLen(n) < k {
      Pow2Monotone(BitLen(n), k - 1);
    } else if BitLen(n) > k {
      Pow2Monotone(k, BitLen(n) - 1);
    }
  }

  /** OR-ing in a mask can only raise the bit length to that of the mask. */
  lemma {:induction false} BitOrLen(a: nat, b: nat)
    ensures BitLen(BitOr(a, b)) == if BitLen(a) > BitLen(b) then BitLen(a) else BitLen(b)
    decreases a + b
  {
    if a != 0 || b != 0 {
      BitOrLen(a / 2, b / 2);
      var r := BitOr(a, b);
      assert r / 2 == BitOr(a / 2, b / 2);
      if r == 0 {
        BitLenZero(BitOr(a / 2, b / 2));
        BitLenZero(a / 2);
        BitLenZero(b / 2);
        assert false;
      }
    }
  }

  lemma Pow2Of30()
    ensures Pow2(30) == MAX_ROUNDED && Pow2(31) == 2 * MAX_ROUNDED
  {
    assert Pow2(15) == 32768;
    Pow2Add(15, 15);
  }

  /** The shift count in `next_pow2`. */
  lemma ShiftCount(n: nat)
    requires n <= 2 * MAX_ROUNDED
    ensures n > 1 ==> BitLen(n - 1) <= 31 && (n <= MAX_ROUNDED ==> BitLen(n - 1) <= 30)
  {
    if n > 1 {
      Pow2Of30();
      BitLenBounds(n - 1);
      if BitLen(n - 1) > 31 {
        Pow2Monotone(31, BitLen(n - 1) - 1);
      } else if BitLen(n - 1) > 30 {
        Pow2Monotone(30, BitLen(n - 1) - 1);
      }
    }
  }

  lemma BitLenZero(n: nat)
    ensures BitLen(n) == 0 <==> n == 0
  {
  }

  lemma {:induction false} AndBelow(a: nat, b: nat)
    ensures BitAnd(a, b) <= b
    decreases a
  {
    if a > 0 && b > 0 {
      AndBelow(a / 2, b / 2);
    }
  }

  /** Masking with `2^k - 1` is the remainder modulo `2^k`. */
  lemma {:induction false} AndMask(x: nat, k: nat)
    ensures BitAnd(x, Pow2(k) - 1) == x % Pow2(k)
    decreases k
  {
    if k > 0 {
      AndMask(x / 2, k - 1);
      AndMaskStep(x, Pow2(k - 1), Pow2(k));
    }
  }

  lemma AndMaskStep(x: nat, h: nat, d: nat)
    requires d == 2 * h && h > 0 && BitAnd(x / 2, h - 1) == (x / 2) % h
    ensures BitAnd(x, d - 1) == x % d
  {
    var low := (x / 2) % h;
    AndOdd(x, h - 1);
    assert BitAnd(x, d - 1) == 2 * low + x % 2;
    ModHalve(x, h, d);
  }

  lemma AndOdd(x: nat, m: nat)
    ensures BitAnd(x, 2 * m + 1) == 2 * BitAnd(x / 2, m) + x % 2
  {
    assert (2 * m + 1) / 2 == m && (2 * m + 1) % 2 == 1;
  }

  lemma ModHalve(x: nat, h: nat, d: nat)
    requires h > 0 && d == 2 * h
    ensures x % d == 2 * ((x / 2) % h) + x % 2
  {
    var q, r := (x / 2) / h, (x / 2) % h;
    Quotient(x / 2, h);
    assert x == 2 * (h * q + r) + x % 2;
    assert 2 * (h * q) == q * d;
    ModUnique(x, d, q, 2 * r + x % 2);
  }

  lemma ModUnique(x: int, m: int, q: int, r: int)
    requires m > 0 && 0 <= r < m && x == q * m + r
    ensures x % m == r && x / m == q
  {
    var q', r' := x / m, x % m;
    assert x == q' * m + r' && 0 <= r' < m;
    var d := q - q';
    assert d * m == q * m - q' * m;
    if d >= 1 {
      MulAtLeast(d, m);
      assert false;
    } else if d <= -1 {
      MulAtLeast(-d, m);
      assert false;
    }
    assert q == q';
  }

  lemma MulMonotone(a: int, b: int, w: nat)
    requires a <= b
    ensures a * w <= b * w
  {
    assert (b - a) * w >= 0;
  }

  /** A quotient lies between the multiples its dividend lies between. */
  lemma DivBetween(v: nat, w: nat, lo: nat, hi: nat)
    requires w > 0 && lo * w <= v < hi * w
    ensures lo <= v / w < hi
  {
    Quotient(v, w);
    var q := v / w;
    if q >= hi {
      MulMonotone(hi, q, w);
    } else if q < lo {
      MulMonotone(q + 1, lo, w);
    }
  }

  /** Numbers with the same remainder are at least the divisor apart. */
  lemma SameRemainderApart(a: nat, b: nat, d: nat)
    requires d > 0 && a % d == b % d && a < b
    ensures a + d <= b
  {
    Quotient(a, d);
    Quotient(b, d);
    var qa, qb := a / d, b / d;
    if qb <= qa {
      MulMonotone(qb, qa, d);
    } else {
      MulMonotone(qa + 1, qb, d);
    }
  }

  lemma MulAtLeast(d: int, m: int)
    requires d >= 1 && m > 0
    ensures d * m >= m
  {
    assert (d - 1) * m >= 0;
  }

  /** `is_pow2` decides exactly the powers of two. */
  lemma {:induction false} IsPow2Exact(n: nat)
    ensures IsPow2(n) <==> PowerOfTwo(n)
    decreases n
  {
    if n == 1 {
      assert n == Pow2(0);
    } else if n > 1 {
      if n % 2 == 0 {
        IsPow2Exact(n / 2);
        assert (n - 1) / 2 == n / 2 - 1;
        if PowerOfTwo(n / 2) {
          var k: nat :| n / 2 == Pow2(k);
          assert n == Pow2(k + 1);
        }
        if PowerOfTwo(n) {
          var k: nat :| n == Pow2(k);
          assert k > 0 && n / 2 == Pow2(k - 1);
        }
      } else {
        assert n / 2 == (n - 1) / 2;
        AndSelf(n / 2);
        if PowerOfTwo(n) {
          assert false;
        }
      }
    } else if PowerOfTwo(n) {
      assert false;
    }
  }

  lemma {:induction false} AndSelf(n: nat)
    ensures BitAnd(n, n) == n
  {
    if n > 0 {
      AndSelf(n / 2);
    }
  }

  lemma NextPow2Is(n: nat) returns (k: nat)
    requires 1 < n <= MAX_ROUNDED
    ensures NextPow2(n) == Pow2(k + 1) == 2 * Pow2(k) && Pow2(k) < n <= Pow2(k + 1)
  {
    ShiftCount(n);
    BitLenBounds(n - 1);
    k := BitLen(n - 1) - 1;
  }

  /** Only one power of two is behind the one before a number, and not below the number. */
  lemma BetweenPowers(j: nat, k: nat)
    requires Pow2(k) < Pow2(j) <= Pow2(k + 1)
    ensures j == k + 1
  {
    if j <= k {
      Pow2Monotone(j, k);
    } else if j > k + 1 {
      Pow2Monotone(k + 2, j);
    }
  }

  /** Up to 2^30 `next_pow2` is the least power of two not below its argument, and a power of two is its own. */
  lemma NextPow2Least(n: nat)
    requires 1 <= n <= MAX_ROUNDED
    ensures PowerOfTwo(NextPow2(n))
    ensures n <= NextPow2(n) < 2 * n
    ensures NextPow2(n) == n <==> PowerOfTwo(n)
  {
    if n == 1 {
      assert n == Pow2(0);
    } else {
      hide NextPow2, Pow2;
      var k := NextPow2Is(n);
      if PowerOfTwo(n) {
        var j: nat :| n == Pow2(j);
        BetweenPowers(j, k);
      }
    }
  }

  /** It is the least power of two not below its argument exactly up to 2^30; from there to 2^31 it is far too large. */
  lemma NextPow2Exactly(n: nat)
    requires 1 <= n <= 2 * MAX_ROUNDED
    ensures PowerOfTwo(NextPow2(n)) && n <= NextPow2(n) < 2 * n <==> n <= MAX_ROUNDED
    ensures n > MAX_ROUNDED ==> NextPow2(n) == 0xffff_ffff_8000_0000
  {
    if n <= MAX_ROUNDED {
      NextPow2Least(n);
    } else {
      Pow2Of30();
      BitLenUnique(n - 1, 31);
    }
  }
}
