/** The two's-complement reading of a big integer's places: 32-bit words, least
    significant first. The top bit of the last place is the sign, and reading past
    the end repeats the sign (zero places for a non-negative number, all-ones places
    for a negative one). */
module TwosComplement {
  import opened Arith
  import opened Words

  type Place = Word32

  /** 2^(32 n): the weight of place n. */
  function Pow(n: nat): (p: int)
    ensures p >= 1
  {
    if n == 0 then 1 else B32 * Pow(n - 1)
  }

  lemma {:induction false} PowAdd(a: nat, b: nat)
    ensures Pow(a + b) == Pow(a) * Pow(b)
  {
    if b > 0 {
      PowAdd(a, b - 1);
      MulAssoc(B32, Pow(a), Pow(b - 1));
    }
  }

  lemma {:induction false} PowMono(a: nat, b: nat)
    requires a <= b
    ensures Pow(a) <= Pow(b)
  {
    if a < b {
      PowMono(a, b - 1);
    }
  }

  /** HalfB32 * 2^(32 (n - 1)): the smallest magnitude whose n-place reading is negative. */
  function HalfPow(n: nat): int
    requires n >= 1
  {
    HalfB32 * Pow(n - 1)
  }

  lemma PowHalf(n: nat)
    requires n >= 1
    ensures Pow(n) == 2 * HalfPow(n) && HalfPow(n) >= Pow(n - 1)
  {
  }

  lemma PowZero()
    ensures Pow(0) == 1
  {
  }

  lemma PowOne()
    ensures Pow(1) == B32
  {
  }

  lemma PowNext(i: nat)
    ensures Pow(i + 1) == B32 * Pow(i)
  {
  }

  /** The places read as an unsigned number. */
  function Unsigned(s: seq<Place>): (u: nat)
    ensures u < Pow(|s|)
  {
    if |s| == 0 then 0
    else
      MulLeRight(s[|s| - 1], B32 - 1, Pow(|s| - 1));
      Unsigned(s[..|s| - 1]) + s[|s| - 1] * Pow(|s| - 1)
  }

  /** `sign_bit`: the top bit of the last place. */
  predicate SignBit(s: seq<Place>)
  {
    |s| > 0 && s[|s| - 1] >= HalfB32
  }

  /** The two's-complement value of the places. */
  function Value(s: seq<Place>): int
  {
    Unsigned(s) - (if SignBit(s) then Pow(|s|) else 0)
  }

  /** `default_place`: the place that repeats the sign. */
  function Fill(sign: bool): Place
  {
    if sign then MaxWord32 else 0
  }

  function Fills(sign: bool, k: nat): (r: seq<Place>)
    ensures |r| == k && forall i :: 0 <= i < k ==> r[i] == Fill(sign)
  {
    seq(k, _ => Fill(sign))
  }

  /** `get_or_default`: the place at `at`, zero below the first place and the sign
      fill past the last one. */
  function GetOrDefault(s: seq<Place>, at: int): Place
    requires |s| >= 1
  {
    if at < 0 then 0 else if at >= |s| then Fill(SignBit(s)) else s[at]
  }

  /** The class invariant: at least one place, and the last place cannot be dropped
      (it is not the sign fill, or the place below it has the other sign bit). */
  predicate Canonical(s: seq<Place>)
  {
    |s| >= 1 &&
    (|s| == 1 || s[|s| - 1] != Fill(SignBit(s)) || SignBit(s[..|s| - 1]) != SignBit(s))
  }

  predicate AllZero(s: seq<Place>)
  {
    forall i :: 0 <= i < |s| ==> s[i] == 0
  }

  /** Place i of an integer in two's complement (floor division, so negative
      numbers read as sign-extended). */
  function Digit(x: int, i: nat): Place
  {
    (x / Pow(i)) % B32
  }

  lemma DigitDef(x: int, i: nat)
    ensures Digit(x, i) == (x / Pow(i)) % B32
  {
  }

  lemma UnsignedAppend(s: seq<Place>, x: Place)
    ensures Unsigned(s + [x]) == Unsigned(s) + x * Pow(|s|)
  {
    assert (s + [x])[..|s|] == s;
  }

  /** The last place carries weight 2^(32 (n - 1)). */
  lemma UnsignedLast(s: seq<Place>)
    requires |s| >= 1
    ensures Unsigned(s) == Unsigned(s[..|s| - 1]) + s[|s| - 1] * Pow(|s| - 1)
  {
  }

  /** Splitting the places at k splits the unsigned value at 2^(32 k). */
  lemma {:induction false} UnsignedSplit(s: seq<Place>, k: nat)
    requires k <= |s|
    ensures Unsigned(s) == Unsigned(s[..k]) + Pow(k) * Unsigned(s[k..])
  {
    if k == |s| {
      assert s[..k] == s;
    } else {
      var n := |s| - 1;
      var p := s[..n];
      UnsignedSplit(p, k);
      assert p[..k] == s[..k];
      assert s[k..] == p[k..] + [s[n]];
      UnsignedAppend(p[k..], s[n]);
      PowAdd(k, n - k);
      SplitArith(Unsigned(s), Unsigned(s[..k]), Unsigned(p[k..]), s[n], Unsigned(s[k..]),
                 Pow(k), Pow(n - k), Pow(n));
    }
  }

  lemma SplitArith(whole: int, low: int, mid: int, top: int, high: int, pk: int, rest: int, pn: int)
    requires whole == low + pk * mid + top * pn && pn == pk * rest && high == mid + top * rest
    ensures whole == low + pk * high
  {
    MulDistrib(pk, mid, top * rest);
    MulAssoc(pk, top, rest);
  }

  lemma UnsignedFront(s: seq<Place>)
    requires |s| >= 1
    ensures Unsigned(s) == s[0] + B32 * Unsigned(s[1..])
  {
    UnsignedSplit(s, 1);
    assert s[..1] == [s[0]];
    assert Unsigned([s[0]]) == Unsigned([]) + s[0] * Pow(0);
  }

  lemma {:induction false} UnsignedAllZero(s: seq<Place>)
    ensures AllZero(s) <==> Unsigned(s) == 0
  {
    if |s| > 0 {
      var n := |s| - 1;
      UnsignedAllZero(s[..n]);
      if s[n] > 0 {
        MulLeRight(1, s[n], Pow(n));
      }
    }
  }

  /** Equal-length place sequences with the same unsigned value are equal. */
  lemma {:induction false} UnsignedInjective(a: seq<Place>, b: seq<Place>)
    requires |a| == |b| && Unsigned(a) == Unsigned(b)
    ensures a == b
  {
    if |a| > 0 {
      var n := |a| - 1;
      DivModUnique(Unsigned(a), Pow(n), a[n], Unsigned(a[..n]));
      DivModUnique(Unsigned(b), Pow(n), b[n], Unsigned(b[..n]));
      UnsignedInjective(a[..n], b[..n]);
      assert a == a[..n] + [a[n]] && b == b[..n] + [b[n]];
    }
  }

  /** The sign bit is set exactly when the unsigned reading is at least half the range. */
  lemma SignBitUnsigned(s: seq<Place>)
    requires |s| >= 1
    ensures SignBit(s) <==> Unsigned(s) >= HalfPow(|s|)
  {
    var n := |s| - 1;
    var top := s[n];
    assert Unsigned(s) == Unsigned(s[..n]) + top * Pow(n);
    if top >= HalfB32 {
      MulLeRight(HalfB32, top, Pow(n));
    } else {
      MulLeRight(top, HalfB32 - 1, Pow(n));
    }
  }

  /** n places hold exactly the values in [-HalfPow(n), HalfPow(n)), and the sign
      bit is the sign of the value. */
  lemma ValueRange(s: seq<Place>)
    requires |s| >= 1
    ensures -HalfPow(|s|) <= Value(s) < HalfPow(|s|)
    ensures Value(s) < 0 <==> SignBit(s)
  {
    SignBitUnsigned(s);
    PowHalf(|s|);
  }

  /** Two numbers of the same half range that agree modulo its width are equal. */
  lemma HalfRangeUnique(x: int, y: int, half: int, k: int)
    requires half > 0 && -half <= x < half && -half <= y < half
    requires x == y + k * (2 * half)
    ensures x == y
  {
    if k >= 1 {
      MulLeRight(1, k, 2 * half);
    } else if k <= -1 {
      MulLeRight(k, -1, 2 * half);
    }
  }

  lemma Regroup(x: int, u: int, v: int, p: int, k: int)
    requires x == u + k * p && v == u - p
    ensures x == v + (k + 1) * p
  {
    MulDistrib(p, k, 1);
  }

  /** The value of n places is the unsigned reading reduced into the half range. */
  lemma ValueFromUnsigned(s: seq<Place>, x: int, k: int)
    requires |s| >= 1 && -HalfPow(|s|) <= x < HalfPow(|s|)
    requires x == Unsigned(s) + k * Pow(|s|)
    ensures Value(s) == x
  {
    ValueRange(s);
    PowHalf(|s|);
    var p, v := Pow(|s|), Value(s);
    if SignBit(s) {
      assert v == Unsigned(s) - p;
      Regroup(x, Unsigned(s), v, p, k);
      HalfRangeUnique(x, v, HalfPow(|s|), k + 1);
    } else {
      HalfRangeUnique(x, v, HalfPow(|s|), k);
    }
  }

  /** Appending the sign fill keeps the value and the sign. */
  lemma ExtendValue(s: seq<Place>)
    requires |s| >= 1
    ensures Value(s + [Fill(SignBit(s))]) == Value(s)
    ensures SignBit(s + [Fill(SignBit(s))]) == SignBit(s)
  {
    var t := s + [Fill(SignBit(s))];
    UnsignedAppend(s, Fill(SignBit(s)));
    assert Pow(|t|) == B32 * Pow(|s|);
  }

  lemma {:induction false} ExtendManyValue(s: seq<Place>, k: nat)
    requires |s| >= 1
    ensures Value(s + Fills(SignBit(s), k)) == Value(s)
    ensures SignBit(s + Fills(SignBit(s), k)) == SignBit(s)
  {
    if k > 0 {
      var f := Fill(SignBit(s));
      ExtendManyValue(s, k - 1);
      var t := s + Fills(SignBit(s), k - 1);
      ExtendValue(t);
      assert s + Fills(SignBit(s), k) == t + [f];
    } else {
      assert s + Fills(SignBit(s), 0) == s;
    }
  }

  /** A canonical place sequence is determined by its value. */
  lemma CanonicalUnique(a: seq<Place>, b: seq<Place>)
    requires Canonical(a) && Canonical(b) && Value(a) == Value(b)
    ensures a == b
  {
    if |a| < |b| {
      LongerNotCanonical(a, b);
    } else if |b| < |a| {
      LongerNotCanonical(b, a);
    } else {
      ValueRange(a);
      ValueRange(b);
      UnsignedInjective(a, b);
    }
  }

  /** A longer sequence with the same value as a shorter one ends in a droppable place. */
  lemma LongerNotCanonical(a: seq<Place>, b: seq<Place>)
    requires 1 <= |a| < |b| && Value(a) == Value(b)
    ensures !Canonical(b)
  {
    var sign := SignBit(a);
    var e := a + Fills(sign, |b| - |a|);
    ExtendManyValue(a, |b| - |a|);
    ValueRange(a);
    ValueRange(b);
    ValueRange(e);
    assert SignBit(e) == SignBit(b);
    UnsignedInjective(e, b);
    var n := |b| - 1;
    assert b[n] == Fill(sign);
    if n - 1 >= |a| {
      assert b[n - 1] == Fill(sign);
    } else {
      assert b[n - 1] == a[|a| - 1];
    }
    assert SignBit(b[..n]) == sign;
  }

  /** Reading place i of the value gives the place stored at i, or the sign fill
      past the end. */
  lemma ValueDigit(s: seq<Place>, i: nat)
    requires |s| >= 1
    ensures Digit(Value(s), i) == GetOrDefault(s, i)
  {
    if i < |s| {
      ValueDigitInside(s, i);
    } else {
      ValueDigitBeyond(s, i);
    }
  }

  lemma FactorLow(v: int, low: int, pi: int, high: int, sign: int, rest: int, pn: int)
    requires v == low + pi * high - sign * pn && pn == pi * rest
    ensures v == (high - sign * rest) * pi + low
  {
    MulAssoc(sign, pi, rest);
    MulDistrib(pi, high, -sign * rest);
  }

  lemma ValueDigitInside(s: seq<Place>, i: nat)
    requires i < |s|
    ensures Digit(Value(s), i) == s[i]
  {
    var n := |s|;
    var sign := if SignBit(s) then 1 else 0;
    var low, highPlaces := Unsigned(s[..i]), Unsigned(s[i..]);
    UnsignedSplit(s, i);
    PowAdd(i, n - i);
    var high := highPlaces - sign * Pow(n - i);
    assert Value(s) == low + Pow(i) * highPlaces - sign * Pow(n);
    FactorLow(Value(s), low, Pow(i), highPlaces, sign, Pow(n - i), Pow(n));
    DivModUnique(Value(s), Pow(i), high, low);
    UnsignedFront(s[i..]);
    assert s[i..][1..] == s[i + 1..];
    var rest := Unsigned(s[i + 1..]) - sign * Pow(n - i - 1);
    assert high == s[i] + rest * B32;
    DivModUnique(high, B32, rest, s[i]);
  }

  lemma ValueDigitBeyond(s: seq<Place>, i: nat)
    requires 1 <= |s| <= i
    ensures Digit(Value(s), i) == Fill(SignBit(s))
  {
    ValueRange(s);
    PowHalf(|s|);
    PowMono(|s|, i);
    if SignBit(s) {
      DivModUnique(Value(s), Pow(i), -1, Value(s) + Pow(i));
      DivModUnique(-1, B32, -1, B32 - 1);
    } else {
      DivModUnique(Value(s), Pow(i), 0, Value(s));
    }
  }

  /** `unsigned_size`: the number of places without a trailing sign fill, at least one. */
  function UnsignedSize(s: seq<Place>): (u: nat)
    requires |s| >= 1
    ensures 1 <= u <= |s|
  {
    var dropped := |s| - (if s[|s| - 1] == Fill(SignBit(s)) then 1 else 0);
    if dropped > 1 then dropped else 1
  }

  /** For a canonical sequence the first `UnsignedSize` places hold the value (offset
      by one place weight when negative), and the place count bounds the magnitude. */
  lemma UnsignedSizeValue(s: seq<Place>)
    requires Canonical(s)
    ensures var u := UnsignedSize(s);
      Value(s) == Unsigned(s[..u]) - (if SignBit(s) then Pow(u) else 0)
    ensures var u := UnsignedSize(s);
      !SignBit(s) ==> Value(s) < Pow(u) && (u > 1 ==> Pow(u - 1) <= Value(s))
    ensures var u := UnsignedSize(s);
      SignBit(s) ==> -Pow(u) <= Value(s) && (u > 1 ==> Value(s) < -Pow(u - 1))
  {
    var u := UnsignedSize(s);
    var n := |s|;
    var sign := SignBit(s);
    if u < n {
      // the last place is the sign fill and the place below has the other sign bit
      var p := s[..u];
      assert s == p + [Fill(sign)];
      UnsignedAppend(p, Fill(sign));
      assert Pow(n) == B32 * Pow(u);
      SignBitUnsigned(p);
      PowHalf(u);
    } else {
      assert s[..u] == s;
      if u > 1 {
        var top := s[n - 1];
        assert Unsigned(s) == Unsigned(s[..n - 1]) + top * Pow(n - 1);
        if sign {
          MulLeRight(top, B32 - 2, Pow(n - 1));
        } else {
          MulLeRight(1, top, Pow(n - 1));
        }
      }
    }
  }
  /** v has an n-place two's-complement form. */
  predicate FitsIn(v: int, n: nat)
    requires n >= 1
  {
    -HalfPow(n) <= v < HalfPow(n)
  }

  /** The fewest places, at least n, in which v fits. */
  function SizeFrom(v: int, n: nat): (r: nat)
    requires n >= 1
    ensures r >= n && FitsIn(v, r)
    ensures forall j :: n <= j < r ==> !FitsIn(v, j)
    decreases (if v < 0 then -v else v) + 1 - HalfPow(n)
  {
    if FitsIn(v, n) then n
    else
      PowHalf(n);
      PowHalf(n + 1);
      SizeFrom(v, n + 1)
  }

  /** The length of the canonical places of v. */
  function CanonicalSize(v: int): (r: nat)
    ensures r >= 1 && FitsIn(v, r)
  {
    SizeFrom(v, 1)
  }

  /** A value that fits in n places fits in more. */
  lemma FitsMono(v: int, n: nat, k: nat)
    requires 1 <= n <= k && FitsIn(v, n)
    ensures FitsIn(v, k)
  {
    PowMono(n - 1, k - 1);
  }

  /** The last place of a canonical sequence cannot be dropped: its value does not
      fit in one place fewer. */
  lemma CanonicalTight(s: seq<Place>)
    requires Canonical(s) && |s| >= 2
    ensures !FitsIn(Value(s), |s| - 1)
  {
    var n := |s|;
    var p, top := s[..n - 1], s[n - 1];
    UnsignedLast(s);
    SignBitUnsigned(p);
    PowHalf(n - 1);
    PowNext(n - 1);
    var sign, pSign := SignBit(s), SignBit(p);
    assert sign <==> top >= HalfB32;
    assert top != Fill(sign) || pSign != sign;
    hide Unsigned, Pow, Value, Canonical, SignBit;
    TightCases(Unsigned(p), top, Pow(n - 1), HalfPow(n - 1), sign, pSign);
  }

  /** The arithmetic of `CanonicalTight`: u is the value of the lower places (below
      big = 2h), top the last place; unless the last place is pure sign fill over
      lower places of the same sign, the value leaves [-h, h). */
  lemma TightCases(u: int, top: Place, big: int, h: int, sign: bool, pSign: bool)
    requires big == 2 * h && h >= 1 && 0 <= u < big
    requires (pSign <==> u >= h) && (sign <==> top >= HalfB32)
    requires top != Fill(sign) || pSign != sign
    ensures var v := u + top * big - (if sign then B32 * big else 0);
      v < -h || v >= h
  {
    if !sign {
      if top >= 1 {
        MulLeRight(1, top, big);
      }
    } else if top <= MaxWord32 - 1 {
      MulLeRight(top, B32 - 2, big);
      MulDistrib(big, B32, -2);
    }
  }

  /** A canonical sequence has exactly `CanonicalSize` places. */
  lemma CanonicalSizeOf(s: seq<Place>)
    requires Canonical(s)
    ensures |s| == CanonicalSize(Value(s))
  {
    var v, c := Value(s), CanonicalSize(Value(s));
    ValueRange(s);
    assert FitsIn(v, |s|);
    if c < |s| {
      FitsMono(v, c, |s| - 1);
      CanonicalTight(s);
    }
  }

  /** The source's read of place i that gives 0 past the last place (not the sign
      fill), taken on the canonical places of v. */
  function Window(v: int, i: nat): Place
  {
    if i < CanonicalSize(v) then Digit(v, i) else 0
  }

  /** `i >= data.size() ? 0 : data[i]` on canonical places is `Window` of their
      value. */
  lemma WindowRead(s: seq<Place>, i: nat)
    requires Canonical(s)
    ensures (if i >= |s| then 0 else s[i]) == Window(Value(s), i)
  {
    CanonicalSizeOf(s);
    if i < |s| {
      ValueDigitInside(s, i);
    }
  }
}
