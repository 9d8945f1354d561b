/** Correctness of the two-step trial-digit division `div3_2` (corrected variant),
    and inputs on which the variant as written returns a wrong quotient. */
module DivisionStep {
  import opened Arith
  import opened Words

  /** (q + 1) * d <= (q + 2) * (d2 * w) when d < (d2 + 1) * w and q < d2. */
  lemma OvershootBound(q: int, d: int, d2: int, w: int, scale: int)
    requires 0 <= q < d2 && 0 < w && 0 <= d < (d2 + 1) * w && 0 < scale
    ensures (q + 1) * (d * scale) <= (q + 2) * (d2 * w * scale)
  {
    var ws := w * scale;
    assert 0 < ws by {
      MulLtRight(0, w, scale);
    }
    assert d * scale <= (d2 + 1) * ws by {
      MulLeRight(d, (d2 + 1) * w, scale);
      MulAssoc(d2 + 1, w, scale);
    }
    // (q + 1) * (d2 + 1) <= (q + 2) * d2 because q + 1 <= d2
    assert (q + 1) * (d2 + 1) <= (q + 2) * d2 by {
      MulDistrib(q + 1, d2, 1);
      MulDistrib(d2, q + 1, 1);
    }
    calc {
      (q + 1) * (d * scale);
    <= { MulLeRight(d * scale, (d2 + 1) * ws, q + 1); }
      (q + 1) * ((d2 + 1) * ws);
    == { MulAssoc(q + 1, d2 + 1, ws); }
      ((q + 1) * (d2 + 1)) * ws;
    <= { MulLeRight((q + 1) * (d2 + 1), (q + 2) * d2, ws); }
      ((q + 2) * d2) * ws;
    == { MulAssoc(q + 2, d2, ws); MulAssoc(d2, w, scale); }
      (q + 2) * (d2 * w * scale);
    }
  }

  /** Dividing by an approximation of the divisor from below that undershoots by
      less than one part in q + 2 moves the quotient q up by at most one. */
  lemma ApproximateQuotient(x: int, exact: int, approx: int)
    requires 0 <= x && 0 < approx <= exact
    requires (x / exact + 1) * exact <= (x / exact + 2) * approx
    ensures x / exact <= x / approx <= x / exact + 1
  {
    DivMonoDivisor(x, approx, exact);
    var q := x / exact;
    DivModUnique(x, exact, q, x % exact);
    DivUpperBound(x, approx, q + 2);
  }

  /** A trial digit taken from a prefix of the remainder and the top 32 bits d2 of
      a normalized 64-bit divisor D (d2 >= 2^31) is the true digit or one more. */
  lemma TrialEstimate(x: int, d: int, scale: int, estimate: int)
    requires 0 <= x && 0 < scale
    requires HalfB32 * B32 <= d < B64
    requires x < d * scale * B16
    requires estimate == (x / (B32 * scale)) / (d / B32)
    ensures x / (d * scale) <= estimate <= x / (d * scale) + 1
  {
    var d2 := d / B32;
    assert HalfB32 <= d2 && d2 * B32 <= d < (d2 + 1) * B32 by {
      DivLowerBound(d, B32, HalfB32);
      DivModUnique(d, B32, d2, d % B32);
    }
    var approx := d2 * B32 * scale;
    var exact := d * scale;
    assert 0 < approx <= exact by {
      MulLeRight(d2 * B32, d, scale);
    }
    assert estimate == x / approx by {
      DivDiv(x, B32 * scale, d2);
      MulAssoc(d2, B32, scale);
    }
    var q := x / exact;
    assert 0 <= q < d2 by {
      MulAssoc(d, scale, B16);
      DivUpperBound(x, exact, B16);
      DivLowerBound(x, exact, 0);
    }
    OvershootBound(q, d, d2, B32, scale);
    ApproximateQuotient(x, exact, approx);
  }

  /** One correction suffices when the estimate is the true digit or one more. */
  lemma CorrectedDigit(x: int, unit: int, estimate: int)
    requires 0 <= x && 0 < unit && x / unit <= estimate <= x / unit + 1
    ensures (if x < estimate * unit then estimate - 1 else estimate) == x / unit
  {
    DivModUnique(x, unit, x / unit, x % unit);
    if estimate == x / unit + 1 {
      assert x < estimate * unit;
    } else {
      assert estimate * unit <= x;
    }
  }

  /** The normalized divisor (rhsHigh:rhsLow) as one 64-bit number. */
  lemma NormalizedDivisor(rhsLow: Word32, rhsHigh: Word32)
    requires HalfB32 <= rhsHigh
    ensures var d := rhsHigh * B32 + rhsLow;
            HalfB32 * B32 <= d < B64 && d / B32 == rhsHigh
  {
    var d := rhsHigh * B32 + rhsLow;
    MulLeRight(HalfB32, rhsHigh, B32);
    MulLeRight(rhsHigh, B32 - 1, B32);
    DivModUnique(d, B32, rhsHigh, rhsLow);
  }

  /** Subtracting the true multiple leaves the remainder, which fits 96 bits. */
  lemma SubtractMultiple(x: int, unit: int)
    requires 0 <= x && 0 < unit <= B96
    ensures (x - (x / unit) * unit) % B96 == x % unit
  {
    DivModUnique(x, unit, x / unit, x % unit);
    DivModUnique(x % unit, B96, 0, x % unit);
  }

  /** d * qt for a trial digit qt < 2^16 needs at most 80 bits. */
  lemma TrialProductFits(d: Word64, qt: int)
    requires 0 <= qt < B16
    ensures var m := Mul64(d, qt); m.1 < B16
  {
    var m := Mul64(d, qt);
    MulBothLt(d, qt, B64, B16);
    if m.1 >= B16 {
      MulLeRight(B16, m.1, B64);
    }
  }

  /** The first estimate of `div3_2`: the true high digit or one more. */
  lemma HighEstimate(low: Word64, high: Word32, rhsLow: Word32, rhsHigh: Word32)
    requires HalfB32 <= rhsHigh && high < rhsHigh
    ensures var d := rhsHigh * B32 + rhsLow;
            var x := high * B64 + low;
            var estimate := GetThreeDigits(low, high, 0) / rhsHigh;
            0 <= estimate < B16 && x / (d * B16) <= estimate <= x / (d * B16) + 1
            && 0 <= x / (d * B16) < B16 && 0 < d * B16 <= B96 && d < B64
  {
    var d := rhsHigh * B32 + rhsLow;
    var x := high * B64 + low;
    var unit := d * B16;
    NormalizedDivisor(rhsLow, rhsHigh);
    assert x < rhsHigh * B64 by {
      MulLeRight(high + 1, rhsHigh, B64);
    }
    assert rhsHigh * B64 <= unit * B16 by {
      MulLeRight(rhsHigh * B32, d, B32);
      MulAssoc(d, B16, B16);
    }
    var estimate := GetThreeDigits(low, high, 0) / rhsHigh;
    assert 0 <= estimate < B16 by {
      DivLowerBound(GetThreeDigits(low, high, 0), rhsHigh, 0);
      MulAssoc(rhsHigh, B16, B48);
      DivUpperBound(x, B48, rhsHigh * B16);
      DivUpperBound(x / B48, rhsHigh, B16);
    }
    assert B32 * B16 == B48;
    TrialEstimate(x, d, B16, estimate);
    assert 0 <= x / unit < B16 by {
      DivUpperBound(x, unit, B16);
      DivLowerBound(x, unit, 0);
    }
    assert unit <= B96 by {
      MulLeRight(d, B64, B16);
    }
  }

  /** The first step of the corrected `div3_2` yields the high 16-bit digit of the quotient. */
  lemma HighDigit(low: Word64, high: Word32, rhsLow: Word32, rhsHigh: Word32)
    requires HalfB32 <= rhsHigh && high < rhsHigh
    ensures var d := rhsHigh * B32 + rhsLow;
            HighTrialDigit(low, high, rhsLow, rhsHigh, false).0 == (high * B64 + low) / (d * B16)
  {
    hide GetThreeDigits, Mul64, ShiftLeft16, LessThreeDigits, SubFiveDigits, SubFiveDigitsAsWritten;
    var d := rhsHigh * B32 + rhsLow;
    var x := high * B64 + low;
    var unit := d * B16;
    HighEstimate(low, high, rhsLow, rhsHigh);
    var estimate := GetThreeDigits(low, high, 0) / rhsHigh;
    DivModUnique(estimate, B16, 0, estimate);
    var m := Mul64(d, estimate);
    TrialProductFits(d, estimate);
    var product := ShiftLeft16(m);
    assert product.1 * B64 + product.0 == estimate * unit by {
      MulAssoc(estimate, d, B16);
    }
    CorrectedDigit(x, unit, estimate);
    if x < estimate * unit {
      DivModUnique(estimate - 1, B16, 0, estimate - 1);
    }
  }

  /** Subtracting the product d * q, scaled by `scale`, from (high:low) leaves the remainder. */
  lemma ProductSubtracted(low: int, high: int, d: int, q: int, scale: int, dq: (int, int))
    requires 0 <= high * B64 + low && 0 < scale && 0 < d * scale <= B96
    requires q == (high * B64 + low) / (d * scale)
    requires dq.0 + dq.1 * B64 == d * q
    ensures (high * B64 + low - (dq.1 * B64 + dq.0) * scale) % B96 == (high * B64 + low) % (d * scale)
  {
    MulAssoc(q, d, scale);
    SubtractMultiple(high * B64 + low, d * scale);
  }

  /** The remainder of the first step is the subtraction of d times its digit. */
  lemma HighTrialDigitUnfold(low: Word64, high: Word32, rhsLow: Word32, rhsHigh: Word32, q: Word16)
    requires HalfB32 <= rhsHigh
    requires HighTrialDigit(low, high, rhsLow, rhsHigh, false).0 == q
    ensures var dq := Mul64(rhsHigh * B32 + rhsLow, q);
            HighTrialDigit(low, high, rhsLow, rhsHigh, false).1 == SubFiveDigits(low, high, dq.0, dq.1 % B16, 0)
  {
  }

  /** Subtracting d times the true high digit, shifted by 16 bits, leaves the remainder. */
  lemma HighRemainderValue(low: Word64, high: Word32, rhsLow: Word32, rhsHigh: Word32)
    requires HalfB32 <= rhsHigh && high < rhsHigh
    ensures var d := rhsHigh * B32 + rhsLow;
            var q := (high * B64 + low) / (d * B16);
            0 <= q < B16 &&
            var dq := Mul64(d, q);
            var rem := SubFiveDigits(low, high, dq.0, dq.1 % B16, 0);
            rem.1 * B64 + rem.0 == (high * B64 + low) % (d * B16)
  {
    hide Mul64, SubFiveDigits;
    var d := rhsHigh * B32 + rhsLow;
    var q := (high * B64 + low) / (d * B16);
    HighEstimate(low, high, rhsLow, rhsHigh);
    var dq := Mul64(d, q);
    TrialProductFits(d, q);
    var rem := SubFiveDigits(low, high, dq.0, dq.1 % B16, 0);
    ShiftedRemainder(low, high, d, q, dq, rem);
  }

  lemma ShiftedRemainder(low: int, high: int, d: int, q: int, dq: (int, int), rem: (int, int))
    requires 0 <= high * B64 + low && 0 < d * B16 <= B96
    requires q == (high * B64 + low) / (d * B16)
    requires dq.0 + dq.1 * B64 == d * q && 0 <= dq.1 < B16
    requires rem.1 * B64 + rem.0 == (high * B64 + low - ((dq.1 % B16) * B64 + dq.0) * B16) % B96
    ensures rem.1 * B64 + rem.0 == (high * B64 + low) % (d * B16)
  {
    DivModUnique(dq.1, B16, 0, dq.1);
    ProductSubtracted(low, high, d, q, B16, dq);
  }

  /** The first step of the corrected `div3_2` leaves the remainder modulo d * 2^16. */
  lemma HighRemainder(low: Word64, high: Word32, rhsLow: Word32, rhsHigh: Word32)
    requires HalfB32 <= rhsHigh && high < rhsHigh
    ensures var d := rhsHigh * B32 + rhsLow;
            var r := HighTrialDigit(low, high, rhsLow, rhsHigh, false);
            r.1.1 * B64 + r.1.0 == (high * B64 + low) % (d * B16)
  {
    HighRemainderValue(low, high, rhsLow, rhsHigh);
    HighDigit(low, high, rhsLow, rhsHigh);
    var d := rhsHigh * B32 + rhsLow;
    HighTrialDigitUnfold(low, high, rhsLow, rhsHigh, (high * B64 + low) / (d * B16));
  }

  /** The second estimate of the corrected `div3_2`: the true low digit or one more. */
  lemma LowEstimate(low: Word64, high: Word32, rhsLow: Word32, rhsHigh: Word32)
    requires HalfB32 <= rhsHigh
    requires high * B64 + low < (rhsHigh * B32 + rhsLow) * B16
    ensures var d := rhsHigh * B32 + rhsLow;
            var x := high * B64 + low;
            var trial := Min(GetThreeDigits(low, high, 1) / rhsHigh, B16 - 1);
            0 <= trial < B16 && x / d <= trial <= x / d + 1
            && 0 <= x / d < B16 && 0 < d <= B96 && d < B64
  {
    var d := rhsHigh * B32 + rhsLow;
    var x := high * B64 + low;
    NormalizedDivisor(rhsLow, rhsHigh);
    assert x / B32 < B48 by {
      MulLeRight(d, B64, B16);
      DivUpperBound(x, B32, B48);
    }
    DivLowerBound(x, B32, 0);
    DivModUnique(x / B32, B48, 0, x / B32);
    var estimate := GetThreeDigits(low, high, 1) / rhsHigh;
    assert estimate == (x / B32) / rhsHigh;
    DivLowerBound(x / B32, rhsHigh, 0);
    assert d * 1 * B16 == d * B16;
    TrialEstimate(x, d, 1, estimate);
    assert 0 <= x / d < B16 by {
      DivUpperBound(x, d, B16);
      DivLowerBound(x, d, 0);
    }
  }

  /** The second step of the corrected `div3_2` yields the low 16-bit digit of the quotient. */
  lemma LowDigit(low: Word64, high: Word32, rhsLow: Word32, rhsHigh: Word32)
    requires HalfB32 <= rhsHigh
    requires high * B64 + low < (rhsHigh * B32 + rhsLow) * B16
    ensures var d := rhsHigh * B32 + rhsLow;
            LowTrialDigit(low, high, rhsLow, rhsHigh, false).0 == (high * B64 + low) / d
  {
    hide GetThreeDigits, Mul64, LessThreeDigits, SubFiveDigits, SubFiveDigitsAsWritten;
    var d := rhsHigh * B32 + rhsLow;
    var x := high * B64 + low;
    LowEstimate(low, high, rhsLow, rhsHigh);
    var trial := Min(GetThreeDigits(low, high, 1) / rhsHigh, B16 - 1);
    var product := Mul64(d, trial);
    TrialProductFits(d, trial);
    DivModUnique(product.1, B32, 0, product.1);
    assert LessThreeDigits(low, high, product.0, product.1 % B32) <==> x < trial * d;
    CorrectedDigit(x, d, trial);
    if x < trial * d {
      DivModUnique(trial - 1, B16, 0, trial - 1);
    }
  }

  /** The remainder of the second step is the subtraction of d times its digit. */
  lemma LowTrialDigitUnfold(low: Word64, high: Word32, rhsLow: Word32, rhsHigh: Word32, q: Word16)
    requires HalfB32 <= rhsHigh
    requires LowTrialDigit(low, high, rhsLow, rhsHigh, false).0 == q
    ensures var dq := Mul64(rhsHigh * B32 + rhsLow, q);
            LowTrialDigit(low, high, rhsLow, rhsHigh, false).1 == SubFiveDigits(low, high, dq.0, dq.1 % B16, 1)
  {
  }

  lemma UnshiftedRemainder(low: int, high: int, d: int, q: int, dq: (int, int), rem: (int, int))
    requires 0 <= high * B64 + low && 0 < d < B64
    requires q == (high * B64 + low) / d
    requires dq.0 + dq.1 * B64 == d * q && 0 <= dq.1 < B16
    requires 0 <= rem.0 < B64 && 0 <= rem.1
    requires rem.1 * B64 + rem.0 == (high * B64 + low - ((dq.1 % B16) * B64 + dq.0)) % B96
    ensures rem.1 == 0 && rem.0 == (high * B64 + low) % d
  {
    DivModUnique(dq.1, B16, 0, dq.1);
    ProductSubtracted(low, high, d, q, 1, dq);
    assert rem.1 * B64 + rem.0 < B64;
    if rem.1 > 0 {
      MulLeRight(1, rem.1, B64);
    }
  }

  /** Subtracting d times the true low digit leaves the remainder, which fits 64 bits. */
  lemma LowRemainderValue(low: Word64, high: Word32, rhsLow: Word32, rhsHigh: Word32)
    requires HalfB32 <= rhsHigh
    requires high * B64 + low < (rhsHigh * B32 + rhsLow) * B16
    ensures var d := rhsHigh * B32 + rhsLow;
            var q := (high * B64 + low) / d;
            0 <= q < B16 &&
            var dq := Mul64(d, q);
            var rem := SubFiveDigits(low, high, dq.0, dq.1 % B16, 1);
            rem.1 == 0 && rem.0 == (high * B64 + low) % d
  {
    hide Mul64, SubFiveDigits;
    var d := rhsHigh * B32 + rhsLow;
    var q := (high * B64 + low) / d;
    LowEstimate(low, high, rhsLow, rhsHigh);
    var dq := Mul64(d, q);
    TrialProductFits(d, q);
    var rem := SubFiveDigits(low, high, dq.0, dq.1 % B16, 1);
    UnshiftedRemainder(low, high, d, q, dq, rem);
  }

  /** The second step of the corrected `div3_2` leaves the remainder modulo d. */
  lemma LowRemainder(low: Word64, high: Word32, rhsLow: Word32, rhsHigh: Word32)
    requires HalfB32 <= rhsHigh
    requires high * B64 + low < (rhsHigh * B32 + rhsLow) * B16
    ensures var d := rhsHigh * B32 + rhsLow;
            var r := LowTrialDigit(low, high, rhsLow, rhsHigh, false);
            r.1.1 == 0 && r.1.0 == (high * B64 + low) % d
  {
    LowRemainderValue(low, high, rhsLow, rhsHigh);
    LowDigit(low, high, rhsLow, rhsHigh);
    var d := rhsHigh * B32 + rhsLow;
    LowTrialDigitUnfold(low, high, rhsLow, rhsHigh, (high * B64 + low) / d);
  }

  /** Division by d split into a digit for d * s and a digit for d. */
  lemma QuotientDigits(x: int, d: int, s: int, q1: int, r1: int, q2: int, r2: int)
    requires 0 <= x && 0 < d && 0 < s
    requires q1 == x / (d * s) && r1 == x % (d * s) && q2 == r1 / d && r2 == r1 % d
    ensures x / d == q1 * s + q2 && x % d == r2
  {
    DivModUnique(x, d * s, q1, r1);
    DivModUnique(r1, d, q2, r2);
    calc {
      x;
      q1 * (d * s) + q2 * d + r2;
      (q1 * s + q2) * d + r2;
    }
    DivModUnique(x, d, q1 * s + q2, r2);
  }

  /** The two steps of the corrected `div3_2` compute the quotient and remainder. */
  lemma TwoStepsCorrect(low: Word64, high: Word32, rhsLow: Word32, rhsHigh: Word32)
    requires HalfB32 <= rhsHigh && high < rhsHigh
    ensures var x := high * B64 + low;
            var d := rhsHigh * B32 + rhsLow;
            var first := HighTrialDigit(low, high, rhsLow, rhsHigh, false);
            var second := LowTrialDigit(first.1.0, first.1.1, rhsLow, rhsHigh, false);
            first.0 * B16 + second.0 == x / d && second.1.0 == x % d
  {
    hide HighTrialDigit, LowTrialDigit;

    var x := high * B64 + low;
    var d := rhsHigh * B32 + rhsLow;
    HighDigit(low, high, rhsLow, rhsHigh);
    HighRemainder(low, high, rhsLow, rhsHigh);
    var first := HighTrialDigit(low, high, rhsLow, rhsHigh, false);
    var r1 := first.1.1 * B64 + first.1.0;
    assert 0 <= x && 0 < d && r1 < d * B16 by {
      NormalizedDivisor(rhsLow, rhsHigh);
      MulLtRight(0, d, B16);
      DivModBounds(x, d * B16);
    }
    LowDigit(first.1.0, first.1.1, rhsLow, rhsHigh);
    LowRemainder(first.1.0, first.1.1, rhsLow, rhsHigh);
    var second := LowTrialDigit(first.1.0, first.1.1, rhsLow, rhsHigh, false);
    QuotientDigits(x, d, B16, first.0, r1, second.0, second.1.0);
  }

  /** Without overflow, the corrected `div3_2` is its two steps. */
  lemma Div3By2Unfold(lhsLow: Word32, lhsMed: Word32, lhsHigh: Word32, rhsLow: Word32, rhsHigh: Word32)
    requires 0 < rhsHigh && lhsHigh < rhsHigh
    ensures lhsMed * B32 + lhsLow < B64
    ensures var first := HighTrialDigit(lhsMed * B32 + lhsLow, lhsHigh, rhsLow, rhsHigh, false);
            var second := LowTrialDigit(first.1.0, first.1.1, rhsLow, rhsHigh, false);
            Div3By2(lhsLow, lhsMed, lhsHigh, rhsLow, rhsHigh) == (first.0 * B16 + second.0, second.1.0)
  {
    hide HighTrialDigit, LowTrialDigit;
    MulLeRight(lhsMed, B32 - 1, B32);
    DivModUnique(lhsHigh, rhsHigh, 0, lhsHigh);
  }

  /** The corrected `div3_2`, for a divisor whose top place has its high bit set,
      returns the exact quotient and remainder of the 96-bit dividend by the 64-bit
      divisor when the quotient fits 32 bits (top place of the dividend below the
      divisor's), and (2^32 - 1, 0) otherwise. */
  lemma Div3By2Correct(lhsLow: Word32, lhsMed: Word32, lhsHigh: Word32, rhsLow: Word32, rhsHigh: Word32)
    requires HalfB32 <= rhsHigh
    ensures var x := (lhsHigh * B32 + lhsMed) * B32 + lhsLow;
            var d := rhsHigh * B32 + rhsLow;
            var r := Div3By2(lhsLow, lhsMed, lhsHigh, rhsLow, rhsHigh);
            if lhsHigh < rhsHigh then r.0 == x / d && r.1 == x % d
            else r == (MaxWord32, 0)
  {
    hide HighTrialDigit, LowTrialDigit;
    if lhsHigh < rhsHigh {
      Div3By2Unfold(lhsLow, lhsMed, lhsHigh, rhsLow, rhsHigh);
      TwoStepsCorrect(lhsMed * B32 + lhsLow, lhsHigh, rhsLow, rhsHigh);
      assert (lhsHigh * B32 + lhsMed) * B32 + lhsLow == lhsHigh * B64 + (lhsMed * B32 + lhsLow);
    }
  }

  // Concrete steps of the two counterexamples below, one evaluation each.

  lemma TruncatedHighFact1()
    ensures GetThreeDigits(0, 0x8000, 0) == 0x8000_0000
  {
  }

  lemma TruncatedHighFact2()
    ensures Mul64(0x8000_0000_0000_0001, 1) == (0x8000_0000_0000_0001, 0)
  {
  }

  lemma TruncatedHighFact3()
    ensures Mul64(0x8000_0000_0000_0001, 0) == (0, 0)
  {
  }

  lemma TruncatedHighFact4()
    ensures ShiftLeft16((0x8000_0000_0000_0001, 0)) == (0x1_0000, 0x8000)
  {
  }

  lemma TruncatedHighFact5()
    ensures LessThreeDigits(0, 0x8000, 0x1_0000, 0x8000)
  {
  }

  lemma TruncatedHighFact6()
    ensures SubFiveDigitsAsWritten(0, 0x8000, 0, 0, 0) == (0, 0x8000)
  {
  }

  lemma TruncatedDigitHighStep()
    ensures HighTrialDigit(0, 0x8000, 1, 0x8000_0000, true) == (0, (0, 0x8000))
  {
    TruncatedHighFact1();
    TruncatedHighFact2();
    TruncatedHighFact3();
    TruncatedHighFact4();
    TruncatedHighFact5();
    TruncatedHighFact6();
    hide GetThreeDigits, Mul64, ShiftLeft16, LessThreeDigits, SubFiveDigitsAsWritten;
  }

  lemma TruncatedLowFact1()
    ensures GetThreeDigits(0, 0x8000, 1) == 0x8000_0000_0000
  {
  }

  lemma TruncatedLowFact2()
    ensures !LessThreeDigits(0, 0x8000, 0, 0)
  {
  }

  lemma TruncatedLowFact3()
    ensures SubFiveDigitsAsWritten(0, 0x8000, 0, 0, 1) == (0, 0x8000)
  {
  }

  lemma TruncatedDigitLowStep()
    ensures LowTrialDigit(0, 0x8000, 1, 0x8000_0000, true) == (0, (0, 0x8000))
  {
    TruncatedHighFact3();
    TruncatedLowFact1();
    TruncatedLowFact2();
    TruncatedLowFact3();
    hide GetThreeDigits, Mul64, LessThreeDigits, SubFiveDigitsAsWritten;
  }

  /** As written, the second trial digit 2^16 is cast to 16 bits and becomes 0:
      2^79 divided by 2^63 + 1 gives the digit 0 instead of 65535. */
  lemma Div3By2AsWrittenTruncatedDigit()
    ensures Div3By2AsWritten(0, 0, 0x8000, 1, 0x8000_0000).0 == 0
    ensures Div3By2(0, 0, 0x8000, 1, 0x8000_0000).0 == 0xFFFF
  {
    TruncatedDigitHighStep();
    TruncatedDigitLowStep();
    hide HighTrialDigit, LowTrialDigit;
    assert GetThreeDigits(0, 0x8000, -1) == 0x8000;
    Div3By2Correct(0, 0, 0x8000, 1, 0x8000_0000);
    DivModUnique(0x8000 * B64, 0x8000_0000_0000_0001, 0xFFFF, 0x8000 * B64 - 0xFFFF * 0x8000_0000_0000_0001);
  }

  // Concrete steps of the first digit of the same division: the window
  // (0, 0x8000, 0) is below the divisor, so both trial digits are 0.

  lemma SmallHighFact1()
    ensures GetThreeDigits(0x8000_0000_0000, 0, 0) == 0
  {
  }

  lemma SmallHighFact2()
    ensures ShiftLeft16((0, 0)) == (0, 0)
  {
  }

  lemma SmallHighFact3()
    ensures !LessThreeDigits(0x8000_0000_0000, 0, 0, 0)
  {
  }

  lemma SmallHighFact4()
    ensures SubFiveDigitsAsWritten(0x8000_0000_0000, 0, 0, 0, 0) == (0x8000_0000_0000, 0)
  {
  }

  lemma SmallLowFact1()
    ensures GetThreeDigits(0x8000_0000_0000, 0, 1) == 0x8000
  {
  }

  lemma SmallLowFact2()
    ensures SubFiveDigitsAsWritten(0x8000_0000_0000, 0, 0, 0, 1) == (0x8000_0000_0000, 0)
  {
  }

  lemma SmallHighStep()
    ensures HighTrialDigit(0x8000_0000_0000, 0, 1, 0x8000_0000, true) == (0, (0x8000_0000_0000, 0))
  {
    SmallHighFact1();
    TruncatedHighFact3();
    SmallHighFact2();
    SmallHighFact3();
    SmallHighFact4();
    hide GetThreeDigits, Mul64, ShiftLeft16, LessThreeDigits, SubFiveDigitsAsWritten;
  }

  lemma SmallLowStep()
    ensures LowTrialDigit(0x8000_0000_0000, 0, 1, 0x8000_0000, true) == (0, (0x8000_0000_0000, 0))
  {
    TruncatedHighFact3();
    SmallLowFact1();
    SmallHighFact3();
    SmallLowFact2();
    hide GetThreeDigits, Mul64, LessThreeDigits, SubFiveDigitsAsWritten;
  }

  /** As written, the higher digit of 2^79 / (2^63 + 1), from the window
      (0, 0x8000, 0), is 0, which is also its true value. */
  lemma Div3By2AsWrittenSmallWindow()
    ensures Div3By2AsWritten(0, 0x8000, 0, 1, 0x8000_0000).0 == 0
  {
    SmallHighStep();
    SmallLowStep();
    hide HighTrialDigit, LowTrialDigit;
    assert GetThreeDigits(0x8000_0000_0000, 0, -1) == 0;
  }

  lemma SkippedHighFact1()
    ensures GetThreeDigits(0xFFFF_FFFF_0000, 0x8001, 0) == 0x8001_0000
  {
  }

  lemma SkippedHighFact2()
    ensures Mul64(0x8000_0000_FFFF_FFFF, 1) == (0x8000_0000_FFFF_FFFF, 0)
  {
  }

  lemma SkippedHighFact3()
    ensures ShiftLeft16((0x8000_0000_FFFF_FFFF, 0)) == (0xFFFF_FFFF_0000, 0x8000)
  {
  }

  lemma SkippedHighFact4()
    ensures !LessThreeDigits(0xFFFF_FFFF_0000, 0x8001, 0xFFFF_FFFF_0000, 0x8000)
  {
  }

  lemma SkippedHighFact5()
    ensures SubFiveDigitsAsWritten(0xFFFF_FFFF_0000, 0x8001, 0x8000_0000_FFFF_FFFF, 0, 0) == (0, 0xFFFF_0001)
  {
  }

  lemma SkippedCorrectionHighStep()
    ensures HighTrialDigit(0xFFFF_FFFF_0000, 0x8001, 0xFFFF_FFFF, 0x8000_0000, true) == (1, (0, 0xFFFF_0001))
  {
    SkippedHighFact1();
    SkippedHighFact2();
    SkippedHighFact3();
    SkippedHighFact4();
    SkippedHighFact5();
    hide GetThreeDigits, Mul64, ShiftLeft16, LessThreeDigits, SubFiveDigitsAsWritten;
  }

  lemma SkippedLowFact1()
    ensures GetThreeDigits(0, 0xFFFF_0001, 1) == 0x1_0000_0000
  {
  }

  lemma SkippedLowFact2()
    ensures Mul64(0x8000_0000_FFFF_FFFF, 2) == (0x1_FFFF_FFFE, 1)
  {
  }

  lemma SkippedLowFact3()
    ensures !LessThreeDigits(0, 0xFFFF_0001, 0x1_FFFF_FFFE, 1)
  {
  }

  lemma SkippedLowFact4()
    ensures SubFiveDigitsAsWritten(0, 0xFFFF_0001, 0x1_FFFF_FFFE, 1, 1) == (0xFFFF_FFFE_0000_0002, 0xFFFF_0000)
  {
    hide AddC;
    assert (B64 - 0x1_FFFF_FFFE) % B64 == 0xFFFF_FFFE_0000_0002;
    assert AddC(B64, 0, 0xFFFF_FFFE_0000_0002, false) == (0xFFFF_FFFE_0000_0002, false);
    assert (0xFFFF_0001 - 0) % B32 == 0xFFFF_0001 && (B32 - 1) % B32 == B32 - 1;
    assert AddC(B32, 0xFFFF_0001, B32 - 1, false) == (0xFFFF_0000, true);
  }

  lemma SkippedCorrectionLowStep()
    ensures LowTrialDigit(0, 0xFFFF_0001, 0xFFFF_FFFF, 0x8000_0000, true) == (2, (0xFFFF_FFFE_0000_0002, 0xFFFF_0000))
  {
    SkippedLowFact1();
    SkippedLowFact2();
    SkippedLowFact3();
    SkippedLowFact4();
    hide GetThreeDigits, Mul64, LessThreeDigits, SubFiveDigitsAsWritten;
  }

  /** As written, the first partial remainder keeps a spurious borrow in its top bits,
      so the second trial digit is not corrected: (2^79 + 2^64 + 2^48 - 2^16) divided by
      2^63 + 2^32 - 1 gives 65538 instead of 65537. */
  lemma Div3By2AsWrittenSkipsCorrection()
    ensures Div3By2AsWritten(0xFFFF_0000, 0xFFFF, 0x8001, 0xFFFF_FFFF, 0x8000_0000).0 == 0x1_0002
    ensures Div3By2(0xFFFF_0000, 0xFFFF, 0x8001, 0xFFFF_FFFF, 0x8000_0000).0 == 0x1_0001
  {
    SkippedCorrectionHighStep();
    SkippedCorrectionLowStep();
    hide HighTrialDigit, LowTrialDigit;
    assert GetThreeDigits(0xFFFF_FFFF_0000, 0x8001, -1) == 0x8001;
    Div3By2Correct(0xFFFF_0000, 0xFFFF, 0x8001, 0xFFFF_FFFF, 0x8000_0000);
    DivModUnique(0x8001 * B64 + 0xFFFF_FFFF_0000, 0x8000_0000_FFFF_FFFF, 0x1_0001, 9223372032559808513);
  }
}
