/** What `bit_shift` computes, place by place: the places of x * 2^k (rounded
    down when k < 0) in terms of the places of x, and the value that a sequence
    of such places reads as. */
module Shifts {
  import opened Arith
  import opened Words
  import opened TwosComplement
  import opened PlaceOps

  /** x * 2^k for k >= 0, and x / 2^-k rounded down for k < 0: what `<<= k` and
      `>>= -k` promise. */
  function Shifted(x: int, k: int): int
  {
    if k >= 0 then x * Pow2(k) else x / Pow2(-k)
  }

  /** x shifted by p whole places. */
  function ShiftedPlaces(x: int, p: int): int
  {
    if p >= 0 then x * Pow(p) else x / Pow(-p)
  }

  /** Place j of x, zero below place 0, as `get_or_default` reads it. */
  function DigitAt(x: int, j: int): Place
  {
    if j < 0 then 0 else Digit(x, j)
  }

  /** `place << bits` on a 32-bit place: the low 32 bits of x * 2^b. */
  function ShiftLeftPlace(x: Place, b: nat): Place
  {
    (x * Pow2(b)) % B32
  }

  /** `place >> bits` on a 32-bit place. */
  function ShiftRightPlace(x: Place, b: nat): Place
  {
    DivLeSelf(x, Pow2(b));
    x / Pow2(b)
  }

  lemma {:induction false} PowPow2(n: nat)
    ensures Pow(n) == Pow2(32 * n)
  {
    if n > 0 {
      PowPow2(n - 1);
      Pow2Word();
      Pow2Add(32, 32 * (n - 1));
    }
  }

  lemma HalfPowPow2(n: nat)
    requires n >= 1
    ensures HalfPow(n) == Pow2(32 * n - 1)
  {
    PowPow2(n - 1);
    Pow2Word();
    Pow2Add(31, 32 * (n - 1));
  }

  /** `get_or_default` reads the places of the value, zero below place 0. */
  lemma GetOrDefaultDigit(s: seq<Place>, j: int)
    requires |s| >= 1
    ensures GetOrDefault(s, j) == DigitAt(Value(s), j)
  {
    if j >= 0 {
      ValueDigit(s, j);
    }
  }

  /** Shifting by whole places moves every place by p. */
  lemma ShiftPlacesDigit(x: int, p: int, i: nat)
    ensures Digit(ShiftedPlaces(x, p), i) == DigitAt(x, i - p)
  {
    if p >= 0 && i >= p {
      ShiftUpKept(x, p, i);
    } else if p >= 0 {
      ShiftUpZero(x, p, i);
    } else {
      ShiftDown(x, -p, i);
    }
  }

  lemma ShiftUpKept(x: int, p: nat, i: nat)
    requires i >= p
    ensures (x * Pow(p)) / Pow(i) == x / Pow(i - p)
  {
    hide Pow;
    PowAdd(p, i - p);
    DivDiv(x * Pow(p), Pow(p), Pow(i - p));
    MulDivCancel(x, Pow(p));
  }

  lemma ShiftUpZero(x: int, p: nat, i: nat)
    requires i < p
    ensures ((x * Pow(p)) / Pow(i)) % B32 == 0
  {
    hide Pow;
    PowAdd(i, p - i);
    PowAdd(1, p - i - 1);
    PowOne();
    ShiftUpZeroArith(x, Pow(i), Pow(p - i - 1));
  }

  lemma ShiftUpZeroArith(x: int, low: int, rest: int)
    requires low >= 1
    ensures ((x * (low * (B32 * rest))) / low) % B32 == 0
  {
    assert x * (low * (B32 * rest)) == ((x * rest) * B32) * low;
    MulDivCancel((x * rest) * B32, low);
    MulDivCancel(x * rest, B32);
  }

  lemma ShiftDown(x: int, p: nat, i: nat)
    ensures (x / Pow(p)) / Pow(i) == x / Pow(i + p)
  {
    hide Pow;
    DivDiv(x, Pow(p), Pow(i));
    PowAdd(p, i);
  }

  /** A place d shifted left by b bits (pb = 2^b, pc = 2^(32 - b)), split at the
      word boundary: the bits that stay and the bits that move to the next place. */
  lemma SplitShift(d: int, pb: int, pc: int)
    requires pb >= 1 && pc >= 1 && 0 <= d < pb * pc
    ensures d * pb == (d / pc) * (pb * pc) + (d % pc) * pb
    ensures 0 <= (d % pc) * pb <= pb * pc - pb && 0 <= d / pc < pb
  {
    DivModBounds(d, pc);
    MulDistrib(pb, (d / pc) * pc, d % pc);
    DivUpperBound(d, pc, pb);
    MulLeRight(d % pc, pc - 1, pb);
    MulLeRight(0, d % pc, pb);
  }

  lemma WordSplit(b: nat)
    requires 0 < b < 32
    ensures Pow2(b) * Pow2(32 - b) == B32
  {
    Pow2Add(b, 32 - b);
    Pow2Word();
  }

  /** `<<` and `>>` on a place, by the split at the word boundary. */
  lemma PlaceShifts(d: Place, b: nat)
    requires 0 < b < 32
    ensures ShiftLeftPlace(d, b) == (d % Pow2(32 - b)) * Pow2(b)
    ensures ShiftRightPlace(d, 32 - b) == d / Pow2(32 - b) < Pow2(b)
  {
    var pb, pc := Pow2(b), Pow2(32 - b);
    WordSplit(b);
    SplitShift(d, pb, pc);
    DivModUnique(d * pb, pb * pc, d / pc, (d % pc) * pb);
  }

  /** The bits of place j - 1 that a shift by b bits carries into place j. */
  lemma CarryInArith(r: int, pb: int, p1: int, dd: int, r1: int, h: int, l: int)
    requires pb >= 1 && p1 >= 1
    requires r == dd * p1 + r1 && 0 <= r1 < p1
    requires dd * pb == h * B32 + l && 0 <= l <= B32 - pb
    ensures (r * pb) / (B32 * p1) == h
  {
    MulLeRight(l, B32 - pb, p1);
    MulLeRight(r1, p1 - 1, pb);
    MulLeRight(0, l, p1);
    MulLeRight(0, r1, pb);
    MulDistrib(pb, dd * p1, r1);
    MulAssoc(h, B32, p1);
    assert r * pb == h * (B32 * p1) + (l * p1 + r1 * pb);
    DivModUnique(r * pb, B32 * p1, h, l * p1 + r1 * pb);
  }

  /** The shifted place q * 2^b plus the carried-in bits h, reduced to 32 bits. */
  lemma CombineArith(q: int, h: int, pb: int, pc: int)
    requires pb >= 1 && pc >= 1 && pb * pc == B32 && 0 <= h < pb
    ensures (q * pb + h) % B32 == ((q % B32) % pc) * pb + h
  {
    var dj := q % B32;
    DivModBounds(q, B32);
    SplitShift(dj, pb, pc);
    MulDistrib(pb, (q / B32) * B32, dj);
    MulAssoc(q / B32, B32, pb);
    assert q * pb + h == ((q / B32) * pb + dj / pc) * B32 + ((dj % pc) * pb + h);
    DivModUnique(q * pb + h, B32, (q / B32) * pb + dj / pc, (dj % pc) * pb + h);
  }

  /** Place j of x * 2^b (0 < b < 32) is place j of x shifted left by b bits, with the
      top b bits of place j - 1 shifted in below. */
  lemma ShiftBitsDigit(x: int, b: nat, j: nat)
    requires 0 < b < 32
    ensures Digit(x * Pow2(b), j)
      == ShiftLeftPlace(Digit(x, j), b) + ShiftRightPlace(DigitAt(x, j - 1), 32 - b)
  {
    var pb, pc := Pow2(b), Pow2(32 - b);
    WordSplit(b);
    var q := x / Pow(j);
    var dd := DigitAt(x, j - 1);
    PlaceShifts(dd, b);
    PlaceShifts(Digit(x, j), b);
    ShiftedQuotient(x, b, j);
    hide Pow, ShiftLeftPlace, ShiftRightPlace, DigitAt;
    CombineArith(q, dd / pc, pb, pc);
  }

  /** x * 2^b divided by the weight of place j: the quotient of x shifted, plus the
      bits carried in from place j - 1. */
  lemma ShiftedQuotient(x: int, b: nat, j: nat)
    requires 0 < b < 32
    ensures (x * Pow2(b)) / Pow(j) == (x / Pow(j)) * Pow2(b) + DigitAt(x, j - 1) / Pow2(32 - b)
  {
    var pb, pc := Pow2(b), Pow2(32 - b);
    WordSplit(b);
    if j == 0 {
      PowZero();
      DivModUnique(x * pb, 1, x * pb, 0);
      DivModUnique(x, 1, x, 0);
      DivModUnique(0, pc, 0, 0);
    } else {
      ShiftedQuotientAbove(x, b, j);
    }
  }

  lemma ShiftedQuotientAbove(x: int, b: nat, j: nat)
    requires 0 < b < 32 && j >= 1
    ensures (x * Pow2(b)) / Pow(j) == (x / Pow(j)) * Pow2(b) + Digit(x, j - 1) / Pow2(32 - b)
  {
    WordSplit(b);
    PowNext(j - 1);
    DigitDef(x, j - 1);
    hide Pow, Digit;
    QuotientArith(x, Pow2(b), Pow2(32 - b), Pow(j - 1), Pow(j));
  }

  lemma QuotientArith(x: int, pb: int, pc: int, p1: int, p: int)
    requires pb >= 1 && pc >= 1 && pb * pc == B32 && p1 >= 1 && p == B32 * p1
    ensures (x * pb) / p == (x / p) * pb + ((x / p1) % B32) / pc
  {
    var dd := (x / p1) % B32;
    var q := x / p;
    var h := dd / pc;
    var r := x % p;
    DivModBounds(x, p);
    ModDiv(x, p1, B32);
    DivModBounds(x, p1);
    SplitShift(dd, pb, pc);
    CarryInArith(r, pb, p1, dd, x % p1, h, (dd % pc) * pb);
    MulDistrib(pb, q * p, r);
    MulAssoc(q, p, pb);
    assert x * pb == r * pb + (q * pb) * p;
    DivAddMul(r * pb, q * pb, p);
  }

  /** Bitwise or of m * 2^b and r < 2^b within w bits: no bit is set in both, so
      the or is the sum. */
  lemma {:induction false} BitwiseOrDisjoint(m: nat, r: nat, b: nat, w: nat)
    requires b <= w && m * Pow2(b) < Pow2(w) && r < Pow2(b)
    ensures Bitwise(Or, m * Pow2(b), r, w) == m * Pow2(b) + r
  {
    if b == 0 {
      BitwiseOrZero(m, w);
    } else {
      var l := m * Pow2(b);
      assert l == 2 * (m * Pow2(b - 1));
      BitwiseOrDisjoint(m, r / 2, b - 1, w - 1);
    }
  }

  lemma {:induction false} BitwiseOrZero(l: nat, w: nat)
    requires l < Pow2(w)
    ensures Bitwise(Or, l, 0, w) == l
  {
    if w > 0 {
      BitwiseOrZero(l / 2, w - 1);
    }
  }

  lemma ApplyOrDisjoint(m: nat, r: nat, b: nat)
    requires b <= 32 && m * Pow2(b) < B32 && r < Pow2(b)
    ensures Pow2(b) <= B32 && Apply(Or, m * Pow2(b), r) == m * Pow2(b) + r
  {
    Pow2Word();
    Pow2Mono(b, 32);
    BitwiseOrDisjoint(m, r, b, 32);
  }

  /** A shift by 32 p + b bits is a shift by b bits followed by one by p places. */
  lemma ComposeShift(x: int, p: int, b: nat)
    requires b < 32
    ensures Shifted(x, 32 * p + b) == ShiftedPlaces(x * Pow2(b), p)
  {
    if p >= 0 {
      PowPow2(p);
      Pow2Add(b, 32 * p);
      MulAssoc(x, Pow2(b), Pow2(32 * p));
    } else {
      var k := -(32 * p + b);
      PowPow2(-p);
      Pow2Add(b, k);
      DivDiv(x * Pow2(b), Pow2(b), Pow2(k));
      MulDivCancel(x, Pow2(b));
    }
  }

  /** Place i that `bit_shift` computes when bits > 0: the left source place shifted
      left, or-ed with the right source place shifted right. */
  lemma ShiftPlaceBits(s: seq<Place>, p: int, b: nat, i: nat)
    requires |s| >= 1 && 0 < b < 32 && i >= p
    ensures Apply(Or, ShiftLeftPlace(GetOrDefault(s, i - p), b), ShiftRightPlace(GetOrDefault(s, i - p - 1), 32 - b))
      == Digit(Shifted(Value(s), 32 * p + b), i)
  {
    var v := Value(s);
    GetOrDefaultDigit(s, i - p);
    GetOrDefaultDigit(s, i - p - 1);
    var high, low := Digit(v, i - p), DigitAt(v, i - p - 1);
    PlaceShifts(high, b);
    PlaceShifts(low, b);
    ApplyOrDisjoint(high % Pow2(32 - b), low / Pow2(32 - b), b);
    ShiftBitsDigit(v, b, i - p);
    ShiftPlacesDigit(v * Pow2(b), p, i);
    ComposeShift(v, p, b);
  }

  /** Place i that `bit_shift` computes when bits == 0: the source place i - p. */
  lemma ShiftPlaceWhole(s: seq<Place>, p: int, i: nat)
    requires 0 <= i - p < |s|
    ensures s[i - p] == Digit(Shifted(Value(s), 32 * p), i)
  {
    ValueDigit(s, i - p);
    ShiftPlacesDigit(Value(s), p, i);
    ComposeShift(Value(s), p, 0);
    assert Value(s) * Pow2(0) == Value(s);
  }

  /** The places below p of a left shift by 32 p + b bits are zero. */
  lemma ShiftPlaceBelow(x: int, p: int, b: nat, i: nat)
    requires b < 32 && i < p
    ensures Digit(Shifted(x, 32 * p + b), i) == 0
  {
    ShiftPlacesDigit(x * Pow2(b), p, i);
    ComposeShift(x, p, b);
  }

  /** Bounds of x / 2^k for x within +-2^a. */
  lemma ShiftDownBounds(x: int, a: nat, k: nat)
    requires -Pow2(a) <= x < Pow2(a)
    ensures var e := if a >= k then a - k else 0;
      -Pow2(e) <= x / Pow2(k) < Pow2(e)
  {
    if a >= k {
      Pow2Add(a - k, k);
      DivUpperBound(x, Pow2(k), Pow2(a - k));
      DivLowerBound(x, Pow2(k), -Pow2(a - k));
    } else {
      Pow2Mono(a, k);
      DivUpperBound(x, Pow2(k), 1);
      DivLowerBound(x, Pow2(k), -1);
    }
  }

  /** A value that fits n places, shifted by k bits, fits N places when
      32 n + k <= 32 N. */
  lemma ShiftRange(v: int, n: nat, k: int, size: nat)
    requires n >= 1 && size >= 1 && -HalfPow(n) <= v < HalfPow(n) && 32 * n + k <= 32 * size
    ensures -HalfPow(size) <= Shifted(v, k) < HalfPow(size)
  {
    HalfPowPow2(n);
    HalfPowPow2(size);
    var a := 32 * n - 1;
    if k >= 0 {
      Pow2Add(a, k);
      MulLtRight(v, Pow2(a), Pow2(k));
      MulLeRight(-Pow2(a), v, Pow2(k));
      Pow2Mono(a + k, 32 * size - 1);
    } else {
      ShiftDownBounds(v, a, -k);
      Pow2Mono(if a >= -k then a + k else 0, 32 * size - 1);
    }
  }

  /** Shifting keeps the sign. */
  lemma ShiftedSign(x: int, k: int)
    ensures Shifted(x, k) < 0 <==> x < 0
  {
    if k >= 0 {
      if x < 0 {
        MulLtRight(x, 0, Pow2(k));
      } else {
        MulLeRight(0, x, Pow2(k));
      }
    } else if x < 0 {
      DivUpperBound(x, Pow2(-k), 0);
    } else {
      DivLowerBound(x, Pow2(-k), 0);
    }
  }

  /** Shifting right past every place leaves only the sign: 0 or -1. */
  lemma ShiftPastEnd(v: int, n: nat, k: int)
    requires n >= 1 && -HalfPow(n) <= v < HalfPow(n) && 32 * n + k <= 0
    ensures Shifted(v, k) == if v < 0 then -1 else 0
  {
    HalfPowPow2(n);
    ShiftDownBounds(v, 32 * n - 1, -k);
    ShiftedSign(v, k);
  }

  /** Places that are the places of x read as x mod 2^(32 |s|). */
  lemma {:induction false} UnsignedDigits(s: seq<Place>, x: int)
    requires forall i :: 0 <= i < |s| ==> s[i] == Digit(x, i)
    ensures Unsigned(s) == x % Pow(|s|)
  {
    if |s| == 0 {
      DivModUnique(x, 1, x, 0);
    } else {
      var n := |s| - 1;
      UnsignedDigits(s[..n], x);
      ModDiv(x, Pow(n), B32);
      PowNext(n);
    }
  }

  /** Places that are the places of x, where x fits their count, read as x. */
  lemma DigitsValue(s: seq<Place>, x: int)
    requires |s| >= 1 && -HalfPow(|s|) <= x < HalfPow(|s|)
    requires forall i :: 0 <= i < |s| ==> s[i] == Digit(x, i)
    ensures Value(s) == x
  {
    UnsignedDigits(s, x);
    DivModBounds(x, Pow(|s|));
    ValueFromUnsigned(s, x, x / Pow(|s|));
  }

  /** `bit_shift`'s split of the shift into whole places and remaining bits: C++
      `/` and `%` by 32, then moved down one place when a negative shift leaves
      bits, so that the bits are never negative. */
  function ShiftSplit(rhs: int): (int, int)
  {
    var places, bits := TruncDiv(rhs, 32), TruncMod(rhs, 32);
    if rhs < 0 && bits != 0 then (places - 1, bits + 32) else (places, bits)
  }

  /** The split is Euclidean division by 32. */
  lemma FloorPlaces(rhs: int)
    ensures ShiftSplit(rhs).0 == rhs / 32 && ShiftSplit(rhs).1 == rhs % 32
    ensures 0 <= ShiftSplit(rhs).1 < 32 && rhs == 32 * ShiftSplit(rhs).0 + ShiftSplit(rhs).1
  {
    TruncDivMod(rhs, 32);
    var places, bits := TruncDiv(rhs, 32), TruncMod(rhs, 32);
    if rhs < 0 && bits != 0 {
      DivModUnique(rhs, 32, places - 1, bits + 32);
    } else {
      DivModUnique(rhs, 32, places, bits);
    }
  }

  /** The new place count of `bit_shift`: at least one place. */
  function ShiftSize(size: nat, places: int, extra: nat): nat
  {
    var end := size + places + extra;
    if end > 1 then end else 1
  }

  /** The new place count as written: `data.size() + places + (bits > 0)` is
      evaluated in 64-bit `size_t`, so a negative count wraps around. */
  function ShiftSizeAsWritten(size: nat, places: int, extra: nat): nat
  {
    var end := (size + places + extra) % 0x1_0000_0000_0000_0000;
    if end > 1 then end else 1
  }

  /** `big_integer(5) >>= 64`: one place, places == -2, bits == 0. The count as
      written wraps to 2^64 - 1 places of 4 bytes each, more than a 64-bit address
      space holds, so constructing the vector throws; the signed count is 1, the
      one place of the result 0. */
  lemma ShiftPastEndAsWritten()
    ensures ShiftSplit(-64) == (-2, 0)
    ensures ShiftSizeAsWritten(1, -2, 0) == 0xFFFF_FFFF_FFFF_FFFF
    ensures ShiftSizeAsWritten(1, -2, 0) * 4 > 0x1_0000_0000_0000_0000
    ensures ShiftSize(1, -2, 0) == 1
  {
    assert (1 + -2 + 0) % 0x1_0000_0000_0000_0000 == 0xFFFF_FFFF_FFFF_FFFF;
  }

  /** Both counts agree whenever the signed count is not negative. */
  lemma ShiftSizeAgrees(size: nat, places: int, extra: nat)
    requires 0 <= size + places + extra < 0x1_0000_0000_0000_0000
    ensures ShiftSizeAsWritten(size, places, extra) == ShiftSize(size, places, extra)
  {
    DivModUnique(size + places + extra, 0x1_0000_0000_0000_0000, 0, size + places + extra);
  }
}
