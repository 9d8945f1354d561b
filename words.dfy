/** Word-level primitives of the big-integer engine: add with carry, widening
    multiplication, and the two division primitives used by short and long
    division. Every function here is stateless. C++ shifts and `|` of bit ranges
    that do not overlap are written as multiplication, division and `+` by powers
    of two; unsigned wrap-around is written as `%`. */
module Words {
  import opened Arith

  const B16: int := 0x1_0000
  const B32: int := 0x1_0000_0000
  const B48: int := 0x1_0000_0000_0000
  const B64: int := 0x1_0000_0000_0000_0000
  const B80: int := 0x1_0000_0000_0000_0000_0000
  const B96: int := 0x1_0000_0000_0000_0000_0000_0000
  /** Smallest 32-bit word whose top (sign) bit is set. */
  const HalfB32: int := 0x8000_0000

  /** uint16_t, uint32_t and uint64_t. */
  type Word16 = x: int | 0 <= x < 0x1_0000
  type Word32 = x: int | 0 <= x < 0x1_0000_0000
  type Word64 = x: int | 0 <= x < 0x1_0000_0000_0000_0000

  const MaxWord32: Word32 := 0xFFFF_FFFF

  function BoolToInt(b: bool): int { if b then 1 else 0 }

  /** `addc` (the template is used with 16-, 32- and 64-bit words; `modulus` is
      2^width): the sum modulo 2^width, and the carry out computed by the
      source's three-way overflow test. */
  function AddC(modulus: int, left: int, right: int, carry: bool): (r: (int, bool))
    requires modulus >= 1 && 0 <= left < modulus && 0 <= right < modulus
    ensures 0 <= r.0 < modulus
    ensures r.0 + (if r.1 then modulus else 0) == left + right + BoolToInt(carry)
    ensures r.1 <==> left + right + BoolToInt(carry) >= modulus
  {
    var max := modulus - 1;
    var c := BoolToInt(carry);
    var carryOut := max - left < right || (left == max && carry) || max - left - c < right;
    var sum := left + right + c;
    if sum >= modulus then
      DivModUnique(sum, modulus, 1, sum - modulus);
      (sum % modulus, carryOut)
    else
      DivModUnique(sum, modulus, 0, sum);
      (sum % modulus, carryOut)
  }

  function LowBytes(x: Word64): (r: Word32)
    ensures r == x % B32
  {
    x % B32
  }

  function HighBytes(x: Word64): (r: Word32)
    ensures r == x / B32
  {
    DivUpperBound(x, B32, B32);
    x / B32
  }

  /** 32 x 32 -> 64-bit multiplication, returned as (low, high) halves. */
  function Mul32(left: Word32, right: Word32): (r: (Word32, Word32))
    ensures r.0 + r.1 * B32 == left * right
  {
    MulBothLt(left, right, B32, B32);
    assert B32 * B32 == B64;
    var res: Word64 := left * right;
    (LowBytes(res), HighBytes(res))
  }

  /** 64 x 64 -> 128-bit multiplication from four 32 x 32 partial products,
      returned as (low, high) 64-bit halves. */
  function Mul64(left: Word64, right: Word64): (r: (Word64, Word64))
    ensures r.0 + r.1 * B64 == left * right
  {
    var leftLow, rightLow := LowBytes(left), LowBytes(right);
    var leftHigh, rightHigh := HighBytes(left), HighBytes(right);
    MulBothLt(leftLow, rightLow, B32, B32);
    MulBothLt(leftHigh, rightLow, B32, B32);
    MulBothLt(leftLow, rightHigh, B32, B32);
    MulBothLt(leftHigh, rightHigh, B32, B32);
    var bd: Word64 := leftLow * rightLow;
    var ad: Word64 := leftHigh * rightLow;
    var bc: Word64 := leftLow * rightHigh;
    var ac: Word64 := leftHigh * rightHigh;
    var carry := HighBytes(HighBytes(bd) + LowBytes(bc) + LowBytes(ad));
    var low := (bd + (ad * B32) % B64 + (bc * B32) % B64) % B64;
    var high := (ac + HighBytes(ad) + HighBytes(bc) + carry) % B64;
    Mul64Parts(left, right, leftLow, rightLow, leftHigh, rightHigh, bd, ad, bc, ac, carry, low, high);
    (low, high)
  }

  lemma ProductSplit(a: int, b: int, c: int, d: int, m: int)
    ensures (a * m + b) * (c * m + d) == (a * c) * (m * m) + (a * d + b * c) * m + b * d
  {
    calc {
      (a * m + b) * (c * m + d);
      (a * m) * (c * m + d) + b * (c * m + d);
      (a * m) * (c * m) + (a * m) * d + b * (c * m) + b * d;
      (a * c) * (m * m) + (a * d + b * c) * m + b * d;
    }
  }

  /** The low 64 bits of bd + (x + y) * 2^32 and the carry out of them. */
  lemma LowCarry(bd: int, x: int, y: int)
    requires 0 <= bd < B64 && 0 <= x < B32 && 0 <= y < B32
    ensures var s := bd / B32 + x + y;
            bd + (x + y) * B32 == (bd % B32 + (s % B32) * B32) + (s / B32) * B64
            && 0 <= bd % B32 + (s % B32) * B32 < B64
  {
    var s := bd / B32 + x + y;
    assert bd + (x + y) * B32 == bd % B32 + s * B32;
    assert s == (s / B32) * B32 + s % B32;
    assert s * B32 == (s % B32) * B32 + (s / B32) * B64;
    MulLeRight(s % B32, B32 - 1, B32);
  }

  lemma Mul64Parts(left: Word64, right: Word64, leftLow: Word32, rightLow: Word32,
                   leftHigh: Word32, rightHigh: Word32, bd: Word64, ad: Word64, bc: Word64, ac: Word64,
                   carry: int, low: int, high: int)
    requires left == leftHigh * B32 + leftLow && right == rightHigh * B32 + rightLow
    requires bd == leftLow * rightLow && ad == leftHigh * rightLow
    requires bc == leftLow * rightHigh && ac == leftHigh * rightHigh
    requires carry == (bd / B32 + bc % B32 + ad % B32) / B32
    requires low == (bd + (ad * B32) % B64 + (bc * B32) % B64) % B64
    requires high == (ac + ad / B32 + bc / B32 + carry) % B64
    ensures low + high * B64 == left * right
  {
    var hi := ac + ad / B32 + bc / B32 + carry;
    ProductParts(left, right, leftLow, rightLow, leftHigh, rightHigh, bd, ad, bc, ac);
    MiddleParts(ad, bc);
    LowPart(bd, ad, bc, carry, low);
    assert left * right == hi * B64 + low;
    MulBothLt(left, right, B64, B64);
    DivModUnique(hi, B64, 0, hi);
  }

  /** The schoolbook expansion of the product into four partial products. */
  lemma ProductParts(left: int, right: int, leftLow: int, rightLow: int, leftHigh: int, rightHigh: int,
                     bd: int, ad: int, bc: int, ac: int)
    requires left == leftHigh * B32 + leftLow && right == rightHigh * B32 + rightLow
    requires bd == leftLow * rightLow && ad == leftHigh * rightLow
    requires bc == leftLow * rightHigh && ac == leftHigh * rightHigh
    ensures left * right == ac * B64 + (ad + bc) * B32 + bd
  {
    ProductSplit(leftHigh, leftLow, rightHigh, rightLow, B32);
    assert B32 * B32 == B64;
  }

  /** The middle partial products split into their parts above and below 2^32. */
  lemma MiddleParts(ad: int, bc: int)
    ensures (ad + bc) * B32 == (ad / B32 + bc / B32) * B64 + (ad % B32 + bc % B32) * B32
  {
    DivModBounds(ad, B32);
    DivModBounds(bc, B32);
  }

  /** The low 64 bits of the product, and the carry into the high 64 bits. */
  lemma LowPart(bd: Word64, ad: Word64, bc: Word64, carry: int, low: int)
    requires carry == (bd / B32 + bc % B32 + ad % B32) / B32
    requires low == (bd + (ad * B32) % B64 + (bc * B32) % B64) % B64
    ensures 0 <= low < B64 && bd + (ad % B32 + bc % B32) * B32 == low + carry * B64
  {
    var x, y := ad % B32, bc % B32;
    var lowPart := bd % B32 + ((bd / B32 + x + y) % B32) * B32;
    assert B32 * B32 == B64;
    ShiftedModDiv(ad, B32, B32);
    ShiftedModDiv(bc, B32, B32);
    LowCarry(bd, x, y);
    assert low == (lowPart + carry * B64) % B64;
    DivAddMul(lowPart, carry, B64);
    DivModUnique(lowPart, B64, 0, lowPart);
  }

  /** Three-place comparison: (lhsHigh:lhsLow) < (rhsHigh:rhsLow) as 96-bit numbers. */
  function LessThreeDigits(lhsLow: Word64, lhsHigh: Word32, rhsLow: Word64, rhsHigh: Word32): (r: bool)
    ensures r <==> lhsHigh * B64 + lhsLow < rhsHigh * B64 + rhsLow
  {
    if lhsHigh < rhsHigh then
      MulLeRight(lhsHigh + 1, rhsHigh, B64);
      true
    else if lhsHigh > rhsHigh then
      MulLeRight(rhsHigh + 1, lhsHigh, B64);
      false
    else
      lhsLow < rhsLow
  }

  /** Reads a window of the 96-bit remainder (high:low): `at == -1` its top 32 bits,
      `at == 0` its top 48 bits, `at == 1` bits 32..79 (the `high << 16` is a 32-bit
      shift, so bits above 79 are dropped); any other `at` yields 0. */
  function GetThreeDigits(low: Word64, high: Word32, at: int): (r: Word64)
    ensures at == -1 ==> r == high
    ensures at == 0 ==> r == (high * B64 + low) / B48
    ensures at == 1 ==> r == ((high * B64 + low) / B32) % B48
    ensures at !in {-1, 0, 1} ==> r == 0
  {
    if at == -1 then high
    else if at == 0 then
      DivUpperBound(low, B48, B16);
      DivAddMul(low, high * B16, B48);
      high * B16 + low / B48
    else if at == 1 then
      ShiftedModDiv(high, B16, B16);
      WindowOneParts(low, high);
      ((high * B16) % B32) * B16 + low / B32
    else 0
  }

  lemma WindowOneParts(low: Word64, high: Word32)
    ensures 0 <= (high % B16) * B32 + low / B32 < B48
    ensures ((high * B64 + low) / B32) % B48 == (high % B16) * B32 + low / B32
  {
    DivAddMul(low, high * B32, B32);
    DivUpperBound(low, B32, B32);
    MulLeRight(high % B16, B16 - 1, B32);
    var t := high * B32 + low / B32;
    assert t == (high / B16) * B48 + ((high % B16) * B32 + low / B32) by {
      assert high == (high / B16) * B16 + high % B16;
    }
    DivModUnique(t, B48, high / B16, (high % B16) * B32 + low / B32);
  }

  /** Puts an 80-bit value (hi16:lo64) back in place as bits 16..95 of a 96-bit
      (low, high) pair whose bottom 16 bits are `bottom`. */
  function Unshift16(hi16: Word16, lo64: Word64, bottom: Word16): (r: (Word64, Word32))
    ensures r.1 * B64 + r.0 == (hi16 * B64 + lo64) * B16 + bottom
  {
    ShiftedModDiv(lo64, B16, B48);
    DivUpperBound(lo64, B48, B16);
    MulLeRight(lo64 % B48, B48 - 1, B16);
    MulLeRight(hi16, B16 - 1, B16);
    assert lo64 == (lo64 / B48) * B48 + lo64 % B48;
    ((lo64 * B16) % B64 + bottom, hi16 * B16 + lo64 / B48)
  }

  /** `sub_5_digits` as written: subtracts the 80-bit (rhsHigh:rhsLow), shifted left
      by 16 bits when `at == 0`, from the 96-bit (lhsHigh:lhsLow). The borrow out of
      the low part is taken to be the carry of `addc(low, -rhsLow)`, which is set
      exactly when NO borrow is needed. */
  function SubFiveDigitsAsWritten(lhsLow: Word64, lhsHigh: Word32, rhsLow: Word64, rhsHigh: Word16, at: int)
    : (r: (Word64, Word32))
  {
    if at == 0 then
      DivUpperBound(lhsLow, B16, B48);
      var l64 := (lhsHigh % B16) * B48 + lhsLow / B16;
      var s64 := AddC(B64, l64, (B64 - rhsLow) % B64, false);
      var l16 := (lhsHigh / B16 - BoolToInt(s64.1)) % B16;
      var s16 := AddC(B16, l16, (B16 - rhsHigh) % B16, false);
      Unshift16(s16.0, s64.0, lhsLow % B16)
    else
      var s64 := AddC(B64, lhsLow, (B64 - rhsLow) % B64, false);
      var h := (lhsHigh - BoolToInt(s64.1)) % B32;
      var s32 := AddC(B32, h, (B32 - rhsHigh) % B32, false);
      (s64.0, s32.0)
  }

  /** `sub_5_digits` with the borrow taken as the complement of the carry of
      lhs + ~rhs + 1: the 96-bit difference, modulo 2^96. */
  function SubFiveDigits(lhsLow: Word64, lhsHigh: Word32, rhsLow: Word64, rhsHigh: Word16, at: int)
    : (r: (Word64, Word32))
    ensures at == 0 ==> r.1 * B64 + r.0 == (lhsHigh * B64 + lhsLow - (rhsHigh * B64 + rhsLow) * B16) % B96
    ensures at != 0 ==> r.1 * B64 + r.0 == (lhsHigh * B64 + lhsLow - (rhsHigh * B64 + rhsLow)) % B96
  {
    if at == 0 then
      DivUpperBound(lhsLow, B16, B48);
      var l64 := (lhsHigh % B16) * B48 + lhsLow / B16;
      var s64 := AddC(B64, l64, B64 - 1 - rhsLow, true);
      var l16 := (lhsHigh / B16 - (1 - BoolToInt(s64.1))) % B16;
      var s16 := AddC(B16, l16, B16 - 1 - rhsHigh, true);
      SubWithBorrow(lhsHigh / B16, l64, rhsHigh, rhsLow, B64, B16, s64, l16, s16);
      SubShiftedTotal(lhsLow, lhsHigh, rhsLow, rhsHigh, l64, s16.0 * B64 + s64.0);
      Unshift16(s16.0, s64.0, lhsLow % B16)
    else
      var s64 := AddC(B64, lhsLow, B64 - 1 - rhsLow, true);
      var h := (lhsHigh - (1 - BoolToInt(s64.1))) % B32;
      var s32 := AddC(B32, h, B32 - 1 - rhsHigh, true);
      SubWithBorrow(lhsHigh, lhsLow, rhsHigh, rhsLow, B64, B32, s64, h, s32);
      assert B32 * B64 == B96;
      (s64.0, s32.0)
  }

  /** Two-part subtraction (high:low) - (rhsHigh:rhsLow) where the low part is
      computed as low + ~rhsLow + 1 and its carry out cancels the borrow. */
  lemma SubWithBorrow(high: int, low: int, rhsHigh: int, rhsLow: int, lowModulus: int, highModulus: int,
                      s: (int, bool), h: int, s2: (int, bool))
    requires lowModulus > 0 && highModulus > 0
    requires 0 <= s.0 < lowModulus && s.0 + (if s.1 then lowModulus else 0) == low + (lowModulus - 1 - rhsLow) + 1
    requires h == (high - (1 - BoolToInt(s.1))) % highModulus
    requires 0 <= s2.0 < highModulus && s2.0 + (if s2.1 then highModulus else 0) == h + (highModulus - 1 - rhsHigh) + 1
    ensures s2.0 * lowModulus + s.0
            == (high * lowModulus + low - (rhsHigh * lowModulus + rhsLow)) % (highModulus * lowModulus)
  {
    var borrow := 1 - BoolToInt(s.1);
    var hi := high - borrow - rhsHigh;
    var k := (high - borrow) / highModulus;
    assert h == high - borrow - k * highModulus;
    var m := 1 - BoolToInt(s2.1) - k;
    assert s2.0 == hi + m * highModulus;
    DivModUnique(hi, highModulus, -m, s2.0);
    assert s.0 == low - rhsLow + borrow * lowModulus;
    calc {
      high * lowModulus + low - (rhsHigh * lowModulus + rhsLow);
      (high - borrow - rhsHigh) * lowModulus + (low - rhsLow + borrow * lowModulus);
      hi * lowModulus + s.0;
    }
    ModOfHighLow(hi, s.0, lowModulus, highModulus);
  }

  /** The shifted subtraction works on bits 16..95 of the left operand and keeps bits 0..15. */
  lemma SubShiftedTotal(lhsLow: Word64, lhsHigh: Word32, rhsLow: Word64, rhsHigh: Word16, l64: int, v: int)
    requires l64 == (lhsHigh % B16) * B48 + lhsLow / B16
    requires v == ((lhsHigh / B16) * B64 + l64 - (rhsHigh * B64 + rhsLow)) % (B16 * B64)
    ensures v * B16 + lhsLow % B16 == (lhsHigh * B64 + lhsLow - (rhsHigh * B64 + rhsLow) * B16) % B96
  {
    var x := (lhsHigh / B16) * B64 + l64 - (rhsHigh * B64 + rhsLow);
    calc {
      lhsHigh * B64 + lhsLow - (rhsHigh * B64 + rhsLow) * B16;
      { assert lhsHigh == (lhsHigh / B16) * B16 + lhsHigh % B16;
        assert lhsLow == (lhsLow / B16) * B16 + lhsLow % B16; }
      x * B16 + lhsLow % B16;
    }
    ModOfHighLow(x, lhsLow % B16, B16, B80);
    assert B80 * B16 == B96 && B16 * B64 == B80;
  }


  /** The product d * q shifted left by 16 bits as the 96-bit (low, high) pair
      the first trial step compares against: `dq.first << 16` and the low 32 bits
      of `(dq.second << 16) | (dq.first >> 48)`. */
  function ShiftLeft16(x: (Word64, Word64)): (r: (Word64, Word32))
    ensures x.1 < B16 ==> r.1 * B64 + r.0 == (x.1 * B64 + x.0) * B16
  {
    var r := ((x.0 * B16) % B64, ((x.1 * B16) % B64 + x.0 / B48) % B32);
    if x.1 < B16 then
      var u := Unshift16(x.1, x.0, 0);
      DivModUnique(x.1 * B16, B64, 0, x.1 * B16);
      DivModUnique(u.1, B32, 0, u.1);
      r
    else r
  }

  /** First step of `div3_2`: the high 16-bit trial digit, estimated from the top
      48 bits of the remainder (high:low) divided by the top 32 bits of the divisor,
      decremented once when d * digit * 2^16 exceeds the remainder; and the
      remainder after subtracting d * digit * 2^16. `asWritten` selects the
      subtraction of the source or the corrected one. */
  function HighTrialDigit(low: Word64, high: Word32, rhsLow: Word32, rhsHigh: Word32, asWritten: bool)
    : (r: (Word16, (Word64, Word32)))
    requires rhsHigh != 0
  {
    MulLeRight(rhsHigh, B32 - 1, B32);
    var d: Word64 := rhsHigh * B32 + rhsLow;
    var estimate: Word16 := (GetThreeDigits(low, high, 0) / rhsHigh) % B16;
    var product := ShiftLeft16(Mul64(d, estimate));
    var qt: Word16 := if LessThreeDigits(low, high, product.0, product.1) then (estimate - 1) % B16 else estimate;
    var dq := Mul64(d, qt);
    var rem := if asWritten then SubFiveDigitsAsWritten(low, high, dq.0, dq.1 % B16, 0)
               else SubFiveDigits(low, high, dq.0, dq.1 % B16, 0);
    (qt, rem)
  }

  /** Second step of `div3_2`: the low 16-bit trial digit, estimated from bits
      32..79 of the remainder, corrected once, and the remainder after subtracting
      d * digit. As written the estimate is cast to 16 bits, so an estimate of
      2^16 becomes 0; the corrected step clamps it to 2^16 - 1. */
  function LowTrialDigit(low: Word64, high: Word32, rhsLow: Word32, rhsHigh: Word32, asWritten: bool)
    : (r: (Word16, (Word64, Word32)))
    requires rhsHigh != 0
  {
    MulLeRight(rhsHigh, B32 - 1, B32);
    var d: Word64 := rhsHigh * B32 + rhsLow;
    var estimate := GetThreeDigits(low, high, 1) / rhsHigh;
    DivLowerBound(GetThreeDigits(low, high, 1), rhsHigh, 0);
    var trial: Word16 := if asWritten then estimate % B16 else Min(estimate, B16 - 1);
    var product := Mul64(d, trial);
    var qt: Word16 := if LessThreeDigits(low, high, product.0, product.1 % B32) then (trial - 1) % B16 else trial;
    var dq := Mul64(d, qt);
    var rem := if asWritten then SubFiveDigitsAsWritten(low, high, dq.0, dq.1 % B16, 1)
               else SubFiveDigits(low, high, dq.0, dq.1 % B16, 1);
    (qt, rem)
  }

  /** `div3_2` in both variants: divides the 96-bit (lhsHigh:lhsMed:lhsLow) by the
      64-bit (rhsHigh:rhsLow) in base 2^16, returning the 32-bit quotient and the
      64-bit remainder, or (2^32 - 1, 0) when the quotient does not fit 32 bits. */
  function Div3By2Steps(lhsLow: Word32, lhsMed: Word32, lhsHigh: Word32, rhsLow: Word32, rhsHigh: Word32,
                        asWritten: bool): (r: (Word32, Word64))
    requires rhsHigh != 0
    ensures lhsHigh >= rhsHigh ==> r == (MaxWord32, 0)
  {
    MulLeRight(lhsMed, B32 - 1, B32);
    var low: Word64 := lhsMed * B32 + lhsLow;
    if GetThreeDigits(low, lhsHigh, -1) / rhsHigh != 0 then
      (MaxWord32, 0)
    else
      DivUpperBound(lhsHigh, rhsHigh, 1);
      var first := HighTrialDigit(low, lhsHigh, rhsLow, rhsHigh, asWritten);
      var second := LowTrialDigit(first.1.0, first.1.1, rhsLow, rhsHigh, asWritten);
      MulLeRight(first.0, B16 - 1, B16);
      (first.0 * B16 + second.0, second.1.0)
  }

  /** `div3_2` as written (16-bit cast of the second estimate, inverted borrow in
      `sub_5_digits`). */
  function Div3By2AsWritten(lhsLow: Word32, lhsMed: Word32, lhsHigh: Word32, rhsLow: Word32, rhsHigh: Word32)
    : (r: (Word32, Word64))
    requires rhsHigh != 0
  {
    Div3By2Steps(lhsLow, lhsMed, lhsHigh, rhsLow, rhsHigh, true)
  }

  /** `div3_2` with the second estimate clamped to 2^16 - 1 and the borrow of
      `sub_5_digits` corrected. */
  function Div3By2(lhsLow: Word32, lhsMed: Word32, lhsHigh: Word32, rhsLow: Word32, rhsHigh: Word32)
    : (r: (Word32, Word64))
    requires rhsHigh != 0
    ensures lhsHigh >= rhsHigh ==> r == (MaxWord32, 0)
  {
    Div3By2Steps(lhsLow, lhsMed, lhsHigh, rhsLow, rhsHigh, false)
  }

  /** `div2_1`: (high:low) / rhs and (high:low) % rhs, both truncated to 32 bits. */
  function Div2By1(lhsLow: Word32, lhsHigh: Word32, rhs: Word32): (r: (Word32, Word32))
    requires rhs != 0
    ensures r.1 == (lhsHigh * B32 + lhsLow) % rhs
    ensures lhsHigh < rhs ==> r.0 == (lhsHigh * B32 + lhsLow) / rhs
  {
    var lhs := lhsHigh * B32 + lhsLow;
    if lhsHigh < rhs then
      MulLeRight(lhsHigh + 1, rhs, B32);
      DivUpperBound(lhs, rhs, B32);
      ((lhs / rhs) % B32, lhs % rhs)
    else
      ((lhs / rhs) % B32, lhs % rhs)
  }
}
