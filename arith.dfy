/** Small facts about integer multiplication, division and powers of two that
    the word-level and multi-place proofs rely on. */
module Arith {

  /** The larger of two integers. */
  function Max(a: int, b: int): (r: int)
    ensures r >= a && r >= b && (r == a || r == b)
  {
    if a < b then b else a
  }

  /** The smaller of two integers. */
  function Min(a: int, b: int): (r: int)
    ensures r <= a && r <= b && (r == a || r == b)
  {
    if a < b then a else b
  }

  /** 2^n. */
  function Pow2(n: nat): (p: int)
    ensures p >= 1
  {
    if n == 0 then 1 else 2 * Pow2(n - 1)
  }

  lemma {:induction false} Pow2Add(a: nat, b: nat)
    ensures Pow2(a + b) == Pow2(a) * Pow2(b)
  {
    if a > 0 {
      Pow2Add(a - 1, b);
      calc {
        Pow2(a + b);
        2 * Pow2(a - 1 + b);
        2 * (Pow2(a - 1) * Pow2(b));
        (2 * Pow2(a - 1)) * Pow2(b);
      }
    }
  }

  lemma Pow2Word()
    ensures Pow2(31) == 0x8000_0000 && Pow2(32) == 0x1_0000_0000
  {
    assert Pow2(1) == 2;
    assert Pow2(2) == 4;
    assert Pow2(3) == 8;
    assert Pow2(4) == 16;
    Pow2Add(4, 4);
    Pow2Add(8, 8);
    Pow2Add(16, 16);
  }

  lemma {:induction false} Pow2Mono(a: nat, b: nat)
    requires a <= b
    ensures Pow2(a) <= Pow2(b)
  {
    if a < b {
      Pow2Mono(a, b - 1);
    }
  }

  lemma MulAssoc(a: int, b: int, c: int)
    ensures a * (b * c) == (a * b) * c
  {
  }

  lemma MulDistrib(a: int, b: int, c: int)
    ensures a * (b + c) == a * b + a * c
  {
  }

  lemma MulLeRight(a: int, b: int, c: int)
    requires a <= b && c >= 0
    ensures a * c <= b * c
  {
  }

  lemma MulLtRight(a: int, b: int, c: int)
    requires a < b && c > 0
    ensures a * c < b * c
  {
  }

  lemma MulBothLt(a: int, b: int, m: int, n: int)
    requires 0 <= a < m && 0 <= b < n
    ensures 0 <= a * b < m * n
    ensures a * b <= (m - 1) * (n - 1)
  {
    MulLeRight(0, a, b);
    MulLeRight(a, m - 1, b);
    MulLeRight(b, n - 1, m - 1);
  }

  /** Division by a positive number, stated as the unique quotient/remainder pair. */
  lemma DivModUnique(x: int, m: int, q: int, r: int)
    requires m > 0 && 0 <= r < m && x == q * m + r
    ensures x / m == q && x % m == r
  {
    var q0, r0 := x / m, x % m;
    assert x == q0 * m + r0;
    if q0 > q {
      MulLeRight(q + 1, q0, m);
    } else if q0 < q {
      MulLeRight(q0 + 1, q, m);
    }
  }

  /** Quotient and remainder of a division by a positive number. */
  lemma DivModBounds(x: int, m: int)
    requires m > 0
    ensures x == (x / m) * m + x % m && 0 <= x % m < m
  {
  }

  lemma DivAddMul(x: int, k: int, m: int)
    requires m > 0
    ensures (x + k * m) / m == x / m + k
    ensures (x + k * m) % m == x % m
  {
    DivModUnique(x + k * m, m, x / m + k, x % m);
  }

  lemma DivLowerBound(x: int, m: int, q: int)
    requires m > 0 && q * m <= x
    ensures q <= x / m
  {
    if x / m < q {
      MulLeRight(x / m + 1, q, m);
    }
  }

  lemma DivUpperBound(x: int, m: int, q: int)
    requires m > 0 && x < q * m
    ensures x / m < q
  {
    if x / m >= q {
      MulLeRight(q, x / m, m);
    }
  }

  lemma DivMonoNumerator(x: int, y: int, m: int)
    requires m > 0 && x <= y
    ensures x / m <= y / m
  {
    DivLowerBound(y, m, x / m);
  }

  /** Dividing by a larger divisor gives a smaller quotient (non-negative numerator). */
  lemma DivMonoDivisor(x: int, m: int, n: int)
    requires x >= 0 && 0 < m <= n
    ensures x / n <= x / m
  {
    MulLeRight(m, n, x / n);
    DivLowerBound(x, m, x / n);
  }

  lemma DivLeSelf(x: int, m: int)
    requires x >= 0 && m >= 1
    ensures 0 <= x / m <= x
  {
    DivMonoDivisor(x, 1, m);
    DivModUnique(x, 1, x, 0);
  }

  /** Floor of a floor: (x / a) / b == x / (a * b). */
  lemma DivDiv(x: int, a: int, b: int)
    requires a > 0 && b > 0
    ensures (x / a) / b == x / (a * b)
  {
    var q1, r1 := x / a, x % a;
    var q2, r2 := q1 / b, q1 % b;
    assert x == (q2 * b + r2) * a + r1;
    assert x == q2 * (a * b) + (r2 * a + r1);
    MulLeRight(r2, b - 1, a);
    DivModUnique(x, a * b, q2, r2 * a + r1);
  }

  /** (x % (a * b)) / a == (x / a) % b. */
  lemma ModDiv(x: int, a: int, b: int)
    requires a > 0 && b > 0
    ensures (x % (a * b)) / a == (x / a) % b
    ensures x % (a * b) == ((x / a) % b) * a + x % a
  {
    var q1, r1 := x / a, x % a;
    var q2, r2 := q1 / b, q1 % b;
    assert x == q2 * (a * b) + (r2 * a + r1);
    MulLeRight(r2, b - 1, a);
    DivModUnique(x, a * b, q2, r2 * a + r1);
    DivModUnique(r2 * a + r1, a, r2, r1);
  }

  lemma ModMod(x: int, a: int, b: int)
    requires a > 0 && b > 0
    ensures (x % (a * b)) % a == x % a
  {
    ModDiv(x, a, b);
    DivAddMul(x % a, (x / a) % b, a);
    DivModUnique(x % a, a, 0, x % a);
  }

  lemma MulDivCancel(x: int, m: int)
    requires m > 0
    ensures (x * m) / m == x && (x * m) % m == 0
  {
    DivModUnique(x * m, m, x, 0);
  }

  /** Shifting left by k bits inside a w-bit word and back keeps the low w - k bits. */
  lemma ShiftedModDiv(x: int, a: int, b: int)
    requires a > 0 && b > 0 && x >= 0
    ensures ((x * a) % (a * b)) == (x % b) * a
  {
    ModDiv(x * a, a, b);
    MulDivCancel(x, a);
  }

  /** Reducing a two-part number (hi * lowModulus + lo) modulo highModulus * lowModulus
      only reduces its high part. */
  lemma ModOfHighLow(hi: int, lo: int, lowModulus: int, highModulus: int)
    requires lowModulus > 0 && highModulus > 0 && 0 <= lo < lowModulus
    ensures (hi * lowModulus + lo) % (highModulus * lowModulus) == (hi % highModulus) * lowModulus + lo
  {
    var q, r := hi / highModulus, hi % highModulus;
    calc {
      hi * lowModulus + lo;
      (q * highModulus + r) * lowModulus + lo;
      q * (highModulus * lowModulus) + (r * lowModulus + lo);
    }
    MulLeRight(r, highModulus - 1, lowModulus);
    DivModUnique(hi * lowModulus + lo, highModulus * lowModulus, q, r * lowModulus + lo);
  }

  /** C++ `/` on integers: the quotient rounded toward zero. */
  function TruncDiv(a: int, b: int): int
    requires b != 0
  {
    var q := (if a < 0 then -a else a) / (if b < 0 then -b else b);
    if (a < 0) == (b < 0) then q else -q
  }

  /** C++ `%` on integers: the remainder that goes with `TruncDiv`. */
  function TruncMod(a: int, b: int): int
    requires b != 0
  {
    a - b * TruncDiv(a, b)
  }

  /** Rounding toward zero: the remainder is smaller than the divisor in magnitude and
      is zero or has the sign of the dividend. */
  lemma TruncDivMod(a: int, b: int)
    requires b != 0
    ensures a == TruncDiv(a, b) * b + TruncMod(a, b)
    ensures (if b < 0 then -b else b) > TruncMod(a, b) > -(if b < 0 then -b else b)
    ensures a >= 0 ==> TruncMod(a, b) >= 0
    ensures a < 0 ==> TruncMod(a, b) <= 0
  {
    var aa, bb := if a < 0 then -a else a, if b < 0 then -b else b;
    DivModBounds(aa, bb);
    var q, r := aa / bb, aa % bb;
    if a < 0 && b < 0 {
      assert a == q * b - r;
    } else if a < 0 {
      assert a == (-q) * b - r;
    } else if b < 0 {
      assert a == (-q) * b + r;
    }
  }
}
