/** The arithmetic behind `long_divide`: the normalising factor that puts the high
    bit into the divisor's top place, the trial quotient digit taken from three
    places of the remainder and two of the divisor, and how the normalised quotient
    and remainder give the ones of the operands. */
module LongDivision {
  import opened Arith
  import opened Words
  import opened TwosComplement
  import opened PlaceOps
  import opened DivisionStep

  /** t * floor(2^j / (t + 1)) >= 2^(j - 1) for 1 <= t < 2^j. */
  lemma {:induction false} NormalizingFactor(j: nat, t: int)
    requires j >= 1 && 1 <= t < Pow2(j)
    ensures t * (Pow2(j) / (t + 1)) >= Pow2(j - 1)
  {
    var p, half := Pow2(j), Pow2(j - 1);
    assert p == 2 * half;
    var q := p / (t + 1);
    if t >= half {
      DivLowerBound(p, t + 1, 1);
      MulLeRight(1, q, t);
    } else {
      NormalizingFactor(j - 1, t);
      var h := half / (t + 1);
      DivModBounds(half, t + 1);
      DoubledQuotient(p, half, t + 1, h);
      DivLowerBound(p, t + 1, 2 * h);
      DoubledFactor(t, h, q, half, Pow2(j - 2));
    }
  }

  lemma DoubledQuotient(p: int, half: int, n: int, h: int)
    requires p == 2 * half && n > 0 && h * n <= half
    ensures (2 * h) * n <= p
  {
  }

  lemma DoubledFactor(t: int, h: int, q: int, half: int, quarter: int)
    requires t >= 0 && h >= 0 && q >= 2 * h && t * h >= quarter && half == 2 * quarter
    ensures t * q >= half
  {
    MulLeRight(2 * h, q, t);
  }

  /** The factor `long_divide` multiplies both operands by: 1 when the divisor's top
      place t is all ones, and floor(2^32 / (t + 1)) otherwise. */
  function NormalizingMultiplier(t: Place): (f: Place)
    requires t >= 1
    ensures f >= 1
  {
    if t == MaxWord32 then 1 else Div2By1(0, 1, t + 1).0
  }

  /** Multiplying an m-place divisor with top place t by the factor keeps it within m
      places and sets the high bit of its top place. */
  lemma Normalization(d: int, m: nat, t: Place)
    requires m >= 1 && Pow(m - 1) <= d < Pow(m) && t == d / Pow(m - 1)
    ensures t >= 1
    ensures HalfPow(m) <= d * NormalizingMultiplier(t) < Pow(m)
  {
    hide Pow;
    var p := Pow(m - 1);
    PowNext(m - 1);
    DivLowerBound(d, p, 1);
    DivModBounds(d, p);
    MulDistrib(p, t, 1);
    var f := NormalizingMultiplier(t);
    MultiplierBounds(t);
    ScaledRange(d, p, t, f);
  }

  /** The factor sets the top bit of t without carrying out of the place. */
  lemma MultiplierBounds(t: Place)
    requires t >= 1
    ensures HalfB32 <= t * NormalizingMultiplier(t) && NormalizingMultiplier(t) * (t + 1) <= B32
  {
    var f := NormalizingMultiplier(t);
    if t == MaxWord32 {
      assert f == 1;
    } else {
      assert f == B32 / (t + 1);
      DivModBounds(B32, t + 1);
      Pow2Word();
      NormalizingFactor(32, t);
    }
  }

  /** A number with top place t (weight p), scaled by f: HalfB32 <= t * f and
      f * (t + 1) <= B32 put the scaled number in [HalfB32 * p, B32 * p). */
  lemma ScaledRange(d: int, p: int, t: int, f: int)
    requires p > 0 && f >= 1 && t * p <= d < t * p + p
    requires HalfB32 <= t * f && f * (t + 1) <= B32
    ensures HalfB32 * p <= d * f < B32 * p
  {
    calc {
      HalfB32 * p;
    <= { MulLeRight(HalfB32, t * f, p); }
      (t * f) * p;
    == { MulAssoc(t, f, p); MulAssoc(t, p, f); }
      (t * p) * f;
    <= { MulLeRight(t * p, d, f); }
      d * f;
    }
    calc {
      d * f;
    < { MulLtRight(d, t * p + p, f); }
      (t * p + p) * f;
    == { MulDistrib(p, t, 1); MulAssoc(p, t + 1, f); }
      (f * (t + 1)) * p;
    <= { MulLeRight(f * (t + 1), B32, p); }
      B32 * p;
    }
  }

  /** The digits j, j + 1 and j + 2 of r are the three places above weight Pow(j). */
  lemma TopDigits(r: int, j: nat)
    requires 0 <= r < Pow(j + 3)
    ensures r / Pow(j) == (Digit(r, j + 2) * B32 + Digit(r, j + 1)) * B32 + Digit(r, j)
  {
    hide Pow;
    var y := r / Pow(j);
    PowAdd(j, 1);
    PowAdd(j, 2);
    PowAdd(j, 3);
    PowNext(0);
    PowNext(1);
    PowNext(2);
    PowZero();
    DivDiv(r, Pow(j), B32);
    DivDiv(r, Pow(j), B32 * B32);
    DivUpperBound(r, Pow(j), B32 * B32 * B32);
    DivDiv(y, B32, B32);
    DivUpperBound(y / B32, B32, B32);
    DivModUnique(y / (B32 * B32), B32, 0, y / (B32 * B32));
    DivModBounds(y, B32);
    DivModBounds(y / B32, B32);
  }

  /** The digits j and j + 1 of d are the two places above weight Pow(j). */
  lemma TwoDigits(d: int, j: nat)
    requires 0 <= d < Pow(j + 2)
    ensures d / Pow(j) == Digit(d, j + 1) * B32 + Digit(d, j)
  {
    hide Pow;
    var y := d / Pow(j);
    PowAdd(j, 1);
    PowAdd(j, 2);
    PowNext(0);
    PowNext(1);
    PowZero();
    DivDiv(d, Pow(j), B32);
    DivUpperBound(d, Pow(j), B32 * B32);
    DivUpperBound(y, B32, B32);
    DivModUnique(y / B32, B32, 0, y / B32);
    DivModBounds(y, B32);
  }

  /** A normalised m-place divisor: its top place has the high bit set. */
  lemma NormalizedTop(d: int, m: nat)
    requires m >= 2 && HalfPow(m) <= d < Pow(m)
    ensures Digit(d, m - 1) == d / Pow(m - 1) >= HalfB32
    ensures d < (Digit(d, m - 1) + 1) * Pow(m - 1)
  {
    hide Pow;
    PowNext(m - 1);
    DivUpperBound(d, Pow(m - 1), B32);
    DivLowerBound(d, Pow(m - 1), HalfB32);
    DivModUnique(d / Pow(m - 1), B32, 0, d / Pow(m - 1));
    DivModBounds(d, Pow(m - 1));
  }

  /** When the remainder's top place is not below the divisor's, the true digit is at
      least 2^32 - 2. */
  lemma SaturatedDigit(r: int, d: int, dHigh: int, top: int, pm: int, pk: int)
    requires HalfB32 <= dHigh && pm > 0 && pk > 0 && 0 <= d < (dHigh + 1) * pm
    requires r >= top * (B32 * pm * pk) && top >= dHigh
    ensures (B32 - 2) * (d * pk) <= r
  {
    MulLeRight(d, (dHigh + 1) * pm, (B32 - 2) * pk);
    assert (B32 - 2) * (dHigh + 1) <= B32 * dHigh;
    MulLeRight((B32 - 2) * (dHigh + 1), B32 * dHigh, pm * pk);
    MulLeRight(dHigh, top, B32 * pm * pk);
  }

  /** Rounding down twice. */
  lemma ApproximateUnit(r: int, t: int, d2: int, u: int, pk: int)
    requires t > 0 && d2 > 0 && u > 0 && pk > 0 && t == u * pk
    ensures (r / t) / d2 == r / (d2 * u * pk)
  {
    DivDiv(r, t, d2);
    assert t * d2 == d2 * u * pk;
  }

  /** Dividing by the divisor truncated to its top two places (d2 = d / u, at least
      2^63) gives the true quotient digit or one more. */
  lemma TruncatedDivisorQuotient(r: int, d: int, t: int, u: int, pk: int, d2: int)
    requires 0 <= r < (d * pk) * B32 && u > 0 && pk > 0 && t == u * pk
    requires d2 == d / u && d2 >= HalfB32 * B32
    ensures r / (d * pk) <= (r / t) / d2 <= r / (d * pk) + 1
  {
    TruncationBounds(d, u, d2, pk);
    QuotientBelow(r, d * pk, d2);
    OvershootBound(r / (d * pk), d, d2, u, pk);
    ApproximateUnit(r, t, d2, u, pk);
    ApproximateQuotient(r, d * pk, d2 * u * pk);
  }

  /** The divisor truncated to d2 = d / u, times u, is below d by less than u. */
  lemma TruncationBounds(d: int, u: int, d2: int, pk: int)
    requires u > 0 && pk > 0 && d2 == d / u && d2 >= 1
    ensures 0 < d2 * u <= d < (d2 + 1) * u
    ensures 0 < d2 * u * pk <= d * pk
  {
    DivModBounds(d, u);
    MulLtRight(0, d2, u);
    MulDistrib(u, d2, 1);
    MulLeRight(d2 * u, d, pk);
    MulLtRight(0, d2 * u, pk);
  }

  /** A remainder below 2^32 times the divisor has a quotient below d2 >= 2^32. */
  lemma QuotientBelow(r: int, exact: int, d2: int)
    requires 0 <= r < exact * B32 && 0 < exact && d2 >= B32
    ensures 0 <= r / exact < d2
  {
    DivUpperBound(r, exact, B32);
    DivLowerBound(r, exact, 0);
  }

  /** The weights of places k + m - 2 and k + m. */
  lemma StepWeights(k: nat, m: nat)
    requires m >= 2
    ensures Pow(k + m - 2) == Pow(m - 2) * Pow(k)
    ensures Pow(k + m) == (B32 * Pow(m - 1)) * Pow(k)
    ensures Pow(k + m + 1) == Pow(m) * Pow(k + 1)
    ensures Pow(m) == B32 * Pow(m - 1) && Pow(k + 1) == B32 * Pow(k)
  {
    hide Pow;
    PowAdd(m - 2, k);
    PowAdd(m - 1, k);
    PowAdd(m, k + 1);
    PowNext(m - 1 + k);
    PowNext(m - 1);
    PowNext(k);
    MulAssoc(B32, Pow(m - 1), Pow(k));
  }

  /** The case of `div3_2` without overflow: the estimate is the true digit or one
      more. */
  lemma ExactEstimate(r: int, d: int, k: nat, m: nat)
    requires m >= 2 && HalfPow(m) <= d < Pow(m) && 0 <= r < d * Pow(k + 1)
    requires HalfB32 <= Digit(d, m - 1) && Digit(r, k + m) < Digit(d, m - 1)
    ensures var est := Div3By2(Digit(r, k + m - 2), Digit(r, k + m - 1), Digit(r, k + m),
                               Digit(d, m - 2), Digit(d, m - 1)).0;
      r / (d * Pow(k)) <= est <= r / (d * Pow(k)) + 1
  {
    hide Pow, Digit;
    var low, med, top := Digit(r, k + m - 2), Digit(r, k + m - 1), Digit(r, k + m);
    var dLow, dHigh := Digit(d, m - 2), Digit(d, m - 1);
    Div3By2Correct(low, med, top, dLow, dHigh);
    StepWeights(k, m);
    MulAssoc(d, Pow(k), B32);
    MulLtRight(d, Pow(m), Pow(k + 1));
    assert k + m + 1 == k + m - 2 + 3;
    TopDigits(r, k + m - 2);
    assert m == m - 2 + 2;
    TwoDigits(d, m - 2);
    MulLeRight(HalfB32, dHigh, B32);
    TruncatedDivisorQuotient(r, d, Pow(k + m - 2), Pow(m - 2), Pow(k), d / Pow(m - 2));
  }

  /** The case of `div3_2` overflow (the remainder's top place is not below the
      divisor's): the estimate 2^32 - 1 is the true digit or one more. */
  lemma SaturatedEstimate(r: int, d: int, k: nat, m: nat)
    requires m >= 2 && HalfPow(m) <= d < Pow(m) && 0 <= r
    requires Digit(r, k + m) >= Digit(d, m - 1)
    ensures B32 - 2 <= r / (d * Pow(k))
  {
    hide Pow, Digit;
    var w := Pow(k + m);
    var top := Digit(r, k + m);
    assert top * w <= r by {
      var v := r / w;
      DigitDef(r, k + m);
      DivLeSelf(r, w);
      ModLeSelf(v, B32);
      DivModBounds(r, w);
      MulLeRight(top, v, w);
    }
    assert (B32 - 2) * (d * Pow(k)) <= r by {
      NormalizedTop(d, m);
      StepWeights(k, m);
      SaturatedDigit(r, d, Digit(d, m - 1), top, Pow(m - 1), Pow(k));
    }
    assert 0 < d * Pow(k) by {
      MulLtRight(0, d, Pow(k));
    }
    DivLowerBound(r, d * Pow(k), B32 - 2);
  }

  lemma ModLeSelf(v: int, b: int)
    requires v >= 0 && b > 0
    ensures 0 <= v % b <= v
  {
    DivModBounds(v, b);
    MulLeRight(0, v / b, b);
  }

  /** The trial digit of `long_divide`: `div3_2` of the remainder's places k + m,
      k + m - 1, k + m - 2 by the divisor's places m - 1, m - 2 is the true k-th
      digit of the quotient or one more, for a normalised divisor and a remainder
      below d * Pow(k + 1). */
  lemma TrialDigitEstimate(r: int, d: int, k: nat, m: nat)
    requires m >= 2 && HalfPow(m) <= d < Pow(m) && 0 <= r < d * Pow(k + 1)
    requires Digit(d, m - 1) >= HalfB32
    ensures var est := Div3By2(Digit(r, k + m - 2), Digit(r, k + m - 1), Digit(r, k + m),
                               Digit(d, m - 2), Digit(d, m - 1)).0;
      r / (d * Pow(k)) < B32 && r / (d * Pow(k)) <= est <= r / (d * Pow(k)) + 1
  {
    hide Pow, Digit;
    StepWeights(k, m);
    MulAssoc(d, Pow(k), B32);
    MulLtRight(0, d, Pow(k));
    DivUpperBound(r, d * Pow(k), B32);
    if Digit(r, k + m) < Digit(d, m - 1) {
      ExactEstimate(r, d, k, m);
    } else {
      SaturatedEstimate(r, d, k, m);
    }
  }

  /** For a canonical non-negative number, the place read by `long_divide` (0 past
      the end) is the digit of its value. */
  lemma NonNegativePlace(s: seq<Place>, j: nat)
    requires Canonical(s) && Value(s) >= 0
    ensures (if j >= |s| then 0 else s[j]) == Digit(Value(s), j)
  {
    ValueDigit(s, j);
    ValueRange(s);
  }

  /** Writing x at an index adds the difference times the index's weight. */
  lemma {:induction false} UnsignedUpdate(s: seq<Place>, k: nat, x: Place)
    requires k < |s|
    ensures Unsigned(s[k := x]) == Unsigned(s) + (x - s[k]) * Pow(k)
  {
    hide Pow;
    var n := |s| - 1;
    UnsignedPrefixStep(s, n);
    UnsignedPrefixStep(s[k := x], n);
    assert s[..n + 1] == s && s[k := x][..n + 1] == s[k := x];
    if k < n {
      assert s[k := x][..n] == s[..n][k := x];
      UnsignedUpdate(s[..n], k, x);
    } else {
      assert s[k := x][..n] == s[..n];
    }
  }

  /** One quotient-digit step keeps dividend == quotient * divisor + remainder. */
  lemma DigitStepInvariant(a: int, u: int, d: int, r: int, q: int, pk: int, newU: int, newR: int)
    requires a == u * d + r && newU == u + q * pk && newR == r - q * (d * pk)
    ensures a == newU * d + newR
  {
    MulDistrib(d, u, q * pk);
    MulAssoc(q, pk, d);
    MulAssoc(q, d, pk);
  }

  /** The remainder before the first step is below d * Pow(n - m + 1): a has n
      unsigned places and d at least m. */
  lemma FirstRemainder(a: int, d: int, f: int, n: nat, m: nat)
    requires 1 <= m <= n && 0 <= a < Pow(n) && Pow(m - 1) <= d && f >= 1
    ensures a * f < d * f * Pow(n - m + 1)
  {
    hide Pow;
    PowAdd(m - 1, n - m + 1);
    MulLeRight(Pow(m - 1), d, Pow(n - m + 1));
    MulLtRight(a, Pow(n), f);
    MulLeRight(Pow(n), d * Pow(n - m + 1), f);
  }

  /** Quotient and remainder of the normalised operands give those of the originals:
      the quotient is the same and the remainder is scaled by the factor. */
  lemma NormalizedDivision(a: int, d: int, f: int, q: int, r: int)
    requires a >= 0 && d > 0 && f >= 1
    requires a * f == q * (d * f) + r && 0 <= r < d * f
    ensures q == a / d && r / f == a % d && r % f == 0
  {
    var q0, r0 := a / d, a % d;
    DivModBounds(a, d);
    MulLtRight(r0, d, f);
    assert a * f == q0 * (d * f) + r0 * f by {
      MulDistrib(f, q0 * d, r0);
      MulAssoc(q0, d, f);
    }
    DivModUnique(a * f, d * f, q0, r0 * f);
    DivModUnique(a * f, d * f, q, r);
    MulDivCancel(r0, f);
  }
  /** The k-th quotient digit of `long_divide` as written: `div3_2` as written on
      the remainder's places k + m - 2 .. k + m (0 past the last place) and the
      divisor's top two places, decreased once when its multiple exceeds the
      remainder. `qt--` on a `place_t` 0 wraps around. */
  function TrialDigitAsWritten(r: int, d: int, k: nat, m: nat, dLow: Word32, dHigh: Word32): Word32
    requires m >= 2 && dHigh != 0
  {
    var est := Div3By2AsWritten(Window(r, k + m - 2), Window(r, k + m - 1), Window(r, k + m), dLow, dHigh).0;
    if r < est * (d * Pow(k)) then (if est == 0 then MaxWord32 else est - 1) else est
  }

  /** The digit loop of `long_divide` as written, from digit k down to 0: each
      digit is written into q and its multiple subtracted from the remainder r.
      The result is the quotient places and the remainder left. */
  function DigitLoopAsWritten(r: int, d: int, k: int, m: nat, dLow: Word32, dHigh: Word32, q: seq<Place>)
    : (res: (seq<Place>, int))
    requires m >= 2 && dHigh != 0 && -1 <= k < |q|
    ensures |res.0| == |q|
    decreases k + 1
  {
    if k < 0 then (q, r)
    else
      var qt := TrialDigitAsWritten(r, d, k, m, dLow, dHigh);
      DigitLoopAsWritten(r - qt * (d * Pow(k)), d, k - 1, m, dLow, dHigh, q[k := qt])
  }

  /** The loop as written over all n - m + 1 quotient places, for a normalised
      divisor d of m places, whose top place is then non-zero. */
  function QuotientLoopAsWritten(r: int, d: int, n: nat, m: nat): (seq<Place>, int)
    requires 2 <= m <= n && HalfPow(m) <= d < Pow(m)
  {
    NormalizedTop(d, m);
    DigitLoopAsWritten(r, d, n - m, m, Digit(d, m - 2), Digit(d, m - 1), seq(n - m + 1, _ => 0))
  }

  /** One digit of the loop as written. */
  lemma DigitLoopStep(r: int, d: int, k: int, m: nat, dLow: Word32, dHigh: Word32, q: seq<Place>)
    requires m >= 2 && dHigh != 0 && 0 <= k < |q|
    ensures var qt := TrialDigitAsWritten(r, d, k, m, dLow, dHigh);
      DigitLoopAsWritten(r, d, k, m, dLow, dHigh, q)
      == DigitLoopAsWritten(r - qt * (d * Pow(k)), d, k - 1, m, dLow, dHigh, q[k := qt])
  {
  }

  /** Whatever digits it finds, the loop as written keeps
      dividend == quotient * divisor + remainder; only the bound on the remainder
      rests on the digits being right. */
  lemma {:induction false} DigitLoopIdentity(r: int, d: int, k: int, m: nat, dLow: Word32, dHigh: Word32,
                                             q: seq<Place>)
    requires m >= 2 && dHigh != 0 && -1 <= k < |q|
    requires forall j :: 0 <= j <= k ==> q[j] == 0
    ensures var res := DigitLoopAsWritten(r, d, k, m, dLow, dHigh, q);
      Unsigned(res.0) * d + res.1 == Unsigned(q) * d + r
    decreases k + 1
  {
    hide TrialDigitAsWritten, Unsigned, Pow, Window, CanonicalSize, Digit, Div3By2AsWritten;
    if k < 0 {
      assert DigitLoopAsWritten(r, d, k, m, dLow, dHigh, q) == (q, r);
    } else {
      var qt := TrialDigitAsWritten(r, d, k, m, dLow, dHigh);
      var r2 := r - qt * (d * Pow(k));
      var q2 := q[k := qt];
      DigitLoopStep(r, d, k, m, dLow, dHigh, q);
      hide DigitLoopAsWritten;
      assert forall j :: 0 <= j <= k - 1 ==> q2[j] == 0;
      DigitLoopIdentity(r2, d, k - 1, m, dLow, dHigh, q2);
      var res := DigitLoopAsWritten(r2, d, k - 1, m, dLow, dHigh, q2);
      assert DigitLoopAsWritten(r, d, k, m, dLow, dHigh, q) == res;
      UnsignedUpdate(q, k, qt);
      assert q[k] == 0;
      DigitStepInvariant(Unsigned(q) * d + r, Unsigned(q), d, r, qt, Pow(k), Unsigned(q2), r2);
      assert Unsigned(res.0) * d + res.1 == Unsigned(q) * d + r;
    }
  }

  lemma WindowsOfTruncatedDividend()
    ensures CanonicalSize(0x8000 * Pow(2)) == 3
    ensures Window(0x8000 * Pow(2), 0) == 0 && Window(0x8000 * Pow(2), 1) == 0
    ensures Window(0x8000 * Pow(2), 2) == 0x8000 && Window(0x8000 * Pow(2), 3) == 0
  {
    PowNext(0);
    PowNext(1);
    PowNext(2);
    var v := 0x8000 * Pow(2);
    assert !FitsIn(v, 1) && !FitsIn(v, 2) && FitsIn(v, 3);
    DivModUnique(v, Pow(1), 0x8000 * B32, 0);
    DivModUnique(0x8000 * B32, B32, 0x8000, 0);
    DivModUnique(v, Pow(2), 0x8000, 0);
    DivModUnique(0x8000, B32, 0, 0x8000);
  }

  /** 2^79 / (2^63 + 1) is 65535: the divisor fits 65535 times. */
  lemma TruncatedQuotient()
    ensures (0x8000 * Pow(2)) / 0x8000_0000_0000_0001 == 0xFFFF
    ensures 0x8000 * Pow(2) >= 0x8000_0000_0000_0001
  {
    var v, d := 0x8000 * Pow(2), 0x8000_0000_0000_0001;
    PowNext(0);
    PowNext(1);
    assert v == 0x8000 * B64;
    DivModUnique(v, d, 0xFFFF, v - 0xFFFF * d);
  }

  /** The upper trial digit as written: the window (0, 0x8000, 0) over (1, 2^31) gives 0. */
  lemma TruncatedHighDigit()
    ensures TrialDigitAsWritten(0x8000 * Pow(2), 0x8000_0000_0000_0001, 1, 2, 1, 0x8000_0000) == 0
  {
    WindowsOfTruncatedDividend();
    Div3By2AsWrittenSmallWindow();
    hide Window, Div3By2AsWritten, CanonicalSize;
  }

  /** The lower trial digit as written: the window (0, 0, 0x8000) loses its top bits in the
      16-bit cast and gives 0 as well. */
  lemma TruncatedLowDigit()
    ensures TrialDigitAsWritten(0x8000 * Pow(2), 0x8000_0000_0000_0001, 0, 2, 1, 0x8000_0000) == 0
  {
    WindowsOfTruncatedDividend();
    Div3By2AsWrittenTruncatedDigit();
    hide Window, Div3By2AsWritten, CanonicalSize;
  }

  /** As written, 2^79 divided by 2^63 + 1 (already normalised: the factor is 1)
      finds the quotient digits 0 and 0 and leaves 2^79 as the remainder, where
      the quotient is 65535 and the remainder below the divisor. */
  lemma DigitLoopTruncated()
    ensures Div2By1(0, 1, 0x8000_0001).0 == 1
    ensures DigitLoopAsWritten(0x8000 * Pow(2), 0x8000_0000_0000_0001, 1, 2, 1, 0x8000_0000, [0, 0])
            == ([0, 0], 0x8000 * Pow(2))
    ensures (0x8000 * Pow(2)) / 0x8000_0000_0000_0001 == 0xFFFF
    ensures 0x8000 * Pow(2) >= 0x8000_0000_0000_0001
  {
    hide TrialDigitAsWritten, Window, Div3By2AsWritten, Pow, CanonicalSize;
    var v, d := 0x8000 * Pow(2), 0x8000_0000_0000_0001;
    TruncatedQuotient();
    TruncatedHighDigit();
    TruncatedLowDigit();
    DigitLoopStep(v, d, 1, 2, 1, 0x8000_0000, [0, 0]);
    assert [0, 0][1 := 0] == [0, 0];
    DigitLoopStep(v, d, 0, 2, 1, 0x8000_0000, [0, 0]);
    assert [0, 0][0 := 0] == [0, 0];
  }
}
