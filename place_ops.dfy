/** What the place-by-place loops of the big-integer engine compute, stated on
    place sequences: sign extension to a common length, addition of two
    extended sequences with a carry, and the bitwise operations. */
module PlaceOps {
  import opened Arith
  import opened Words
  import opened TwosComplement

  lemma UnsignedPrefixStep(s: seq<Place>, i: nat)
    requires i < |s|
    ensures Unsigned(s[..i + 1]) == Unsigned(s[..i]) + s[i] * Pow(i)
  {
    assert s[..i + 1][..i] == s[..i];
  }

  /** `resize` to n >= |s| places: the sign fill appended. */
  function ExtendTo(s: seq<Place>, n: nat): (r: seq<Place>)
    requires 1 <= |s| <= n
    ensures |r| == n && r[..|s|] == s
    ensures forall i :: 0 <= i < n ==> r[i] == GetOrDefault(s, i)
  {
    s + Fills(SignBit(s), n - |s|)
  }

  lemma ExtendToValue(s: seq<Place>, n: nat)
    requires 1 <= |s| <= n
    ensures Value(ExtendTo(s, n)) == Value(s) && SignBit(ExtendTo(s, n)) == SignBit(s)
    ensures forall k: nat :: GetOrDefault(ExtendTo(s, n), k) == GetOrDefault(s, k)
  {
    ExtendManyValue(s, n - |s|);
  }

  /** Two sequences that read the same at every place have the same value. */
  lemma ValueFromPlaces(a: seq<Place>, b: seq<Place>)
    requires |a| >= 1 && |b| >= 1
    requires forall k: nat :: GetOrDefault(a, k) == GetOrDefault(b, k)
    ensures Value(a) == Value(b)
  {
    var n := if |a| < |b| then |b| else |a|;
    var ea, eb := ExtendTo(a, n), ExtendTo(b, n);
    ExtendToValue(a, n);
    ExtendToValue(b, n);
    assert forall i :: 0 <= i < n ==> ea[i] == GetOrDefault(a, i) == GetOrDefault(b, i) == eb[i];
    assert ea == eb;
  }

  /** Adding two n-place sequences with carry out `carry`: the n-place sum is the
      exact sum of the values when the signs differ, and otherwise the carry and
      the sign of the operands decide how it is to be read. */
  lemma AddCases(l: seq<Place>, r: seq<Place>, s: seq<Place>, carry: bool)
    requires |l| == |r| == |s| >= 1
    requires Unsigned(s) + (if carry then Pow(|s|) else 0) == Unsigned(l) + Unsigned(r)
    ensures SignBit(l) != SignBit(r) ==> Value(s) == Value(l) + Value(r)
    ensures !SignBit(l) && !SignBit(r) ==> !carry && Unsigned(s) == Value(l) + Value(r)
    ensures SignBit(l) && SignBit(r) ==> carry && Unsigned(s) - Pow(|s|) == Value(l) + Value(r)
  {
    var n := |s|;
    ValueRange(l);
    ValueRange(r);
    PowHalf(n);
    if SignBit(l) != SignBit(r) {
      var k := if carry then 0 else -1;
      ValueFromUnsigned(s, Value(l) + Value(r), k);
    }
  }

  /** Every place replaced by its bitwise complement. */
  function Complemented(s: seq<Place>): (r: seq<Place>)
    ensures |r| == |s| && forall i :: 0 <= i < |s| ==> r[i] == MaxWord32 - s[i]
  {
    seq(|s|, i requires 0 <= i < |s| => MaxWord32 - s[i])
  }

  lemma {:induction false} ComplementedUnsigned(s: seq<Place>)
    ensures Unsigned(Complemented(s)) + Unsigned(s) == Pow(|s|) - 1
  {
    if |s| > 0 {
      hide Unsigned, Pow;
      var n := |s| - 1;
      var c := Complemented(s);
      assert c[..n] == Complemented(s[..n]);
      ComplementedUnsigned(s[..n]);
      UnsignedLast(c);
      UnsignedLast(s);
      PowNext(n);
      ComplementArith(Unsigned(c), Unsigned(s), Unsigned(c[..n]), Unsigned(s[..n]), s[n], Pow(n));
    }
  }

  lemma ComplementArith(uc: int, us: int, lowC: int, lowS: int, top: int, p: int)
    requires lowC + lowS == p - 1
    requires uc == lowC + (MaxWord32 - top) * p && us == lowS + top * p
    ensures uc + us == B32 * p - 1
  {
    MulDistrib(p, MaxWord32 - top, top);
  }

  /** The complement of x reads as -x - 1, at every place and as a value. */
  lemma ComplementedValue(s: seq<Place>)
    requires |s| >= 1
    ensures Value(Complemented(s)) == -1 - Value(s)
    ensures forall k: nat :: GetOrDefault(Complemented(s), k) == MaxWord32 - GetOrDefault(s, k)
  {
    ComplementedUnsigned(s);
  }

  /** The operations of `place_wise`: `&`, `|`, `^`, and `~` of the right place
      (the complement ignores the left operand). */
  datatype BitOp = And | Or | Xor | NotRight

  /** The operation on single bits (0 or 1). */
  function CombineBits(op: BitOp, l: int, r: int): int
  {
    match op
    case And => l * r
    case Or => if l + r > 0 then 1 else 0
    case Xor => (l + r) % 2
    case NotRight => 1 - r
  }

  /** The operation applied to the low `width` bits of l and r, bit by bit. */
  function Bitwise(op: BitOp, l: nat, r: nat, width: nat): (v: nat)
    ensures v < Pow2(width)
  {
    if width == 0 then 0
    else
      var bit := CombineBits(op, l % 2, r % 2);
      assert 0 <= bit <= 1 by {
        assert l % 2 == 0 || l % 2 == 1;
        assert r % 2 == 0 || r % 2 == 1;
      }
      bit + 2 * Bitwise(op, l / 2, r / 2, width - 1)
  }

  /** The operation on two places. */
  function Apply(op: BitOp, l: Place, r: Place): (v: Place)
  {
    Pow2Word();
    Bitwise(op, l, r, 32)
  }

  /** The operation on two signs (top bits). */
  function ApplySign(op: BitOp, l: bool, r: bool): bool
  {
    match op
    case And => l && r
    case Or => l || r
    case Xor => l != r
    case NotRight => !r
  }

  /** The top bit of a combined word is the combination of the top bits. */
  lemma {:induction false} BitwiseTop(op: BitOp, l: nat, r: nat, width: nat)
    requires width >= 1 && l < Pow2(width) && r < Pow2(width)
    ensures Bitwise(op, l, r, width) >= Pow2(width - 1)
        <==> ApplySign(op, l >= Pow2(width - 1), r >= Pow2(width - 1))
  {
    hide CombineBits, Bitwise, Pow2, ApplySign;
    BitwiseUnfold(op, l, r, width);
    CombineBitsSign(op, l % 2, r % 2);
    Pow2Double(width - 1);
    var bit := CombineBits(op, l % 2, r % 2);
    var rest := Bitwise(op, l / 2, r / 2, width - 1);
    if width == 1 {
      Pow2Double(0);
      assert rest == 0 && l < 2 && r < 2;
      assert (l >= 1) == (l % 2 == 1) && (r >= 1) == (r % 2 == 1);
    } else {
      Pow2Double(width - 2);
      var half := Pow2(width - 2);
      BitwiseTop(op, l / 2, r / 2, width - 1);
      TopBitHalves(l, r, bit, rest, half);
    }
  }

  /** One step of `Bitwise`: the low bit, and the rest shifted down by one. */
  lemma BitwiseUnfold(op: BitOp, l: nat, r: nat, width: nat)
    requires width >= 1
    ensures Bitwise(op, l, r, width) == CombineBits(op, l % 2, r % 2) + 2 * Bitwise(op, l / 2, r / 2, width - 1)
  {
  }

  lemma Pow2Double(n: nat)
    ensures Pow2(n + 1) == 2 * Pow2(n) && (n == 0 ==> Pow2(n) == 1)
  {
  }

  /** Halving moves the top bit down one position; adding a low bit does not change it. */
  lemma TopBitHalves(l: nat, r: nat, bit: int, rest: int, half: int)
    requires 0 <= bit <= 1 && 0 < half
    ensures l >= 2 * half <==> l / 2 >= half
    ensures r >= 2 * half <==> r / 2 >= half
    ensures bit + 2 * rest >= 2 * half <==> rest >= half
  {
  }

  /** The bit operation keeps bits as bits, and matches the operation on signs. */
  lemma CombineBitsSign(op: BitOp, a: int, b: int)
    requires 0 <= a <= 1 && 0 <= b <= 1
    ensures 0 <= CombineBits(op, a, b) <= 1
    ensures CombineBits(op, a, b) == 1 <==> ApplySign(op, a == 1, b == 1)
  {
  }

  /** All-ones or all-zero word of `width` bits. */
  function FillBits(sign: bool, width: nat): nat
  {
    if sign then Pow2(width) - 1 else 0
  }

  /** Combining two fills gives the fill of the combined signs. */
  lemma {:induction false} BitwiseFill(op: BitOp, l: bool, r: bool, width: nat)
    ensures Bitwise(op, FillBits(l, width), FillBits(r, width), width) == FillBits(ApplySign(op, l, r), width)
  {
    if width > 0 {
      BitwiseFill(op, l, r, width - 1);
      assert FillBits(l, width) / 2 == FillBits(l, width - 1) && FillBits(l, width) % 2 == (if l then 1 else 0);
      assert FillBits(r, width) / 2 == FillBits(r, width - 1) && FillBits(r, width) % 2 == (if r then 1 else 0);
    }
  }

  /** The complement of the low `width` bits of r. */
  lemma {:induction false} BitwiseComplement(l: nat, r: nat, width: nat)
    requires r < Pow2(width)
    ensures Bitwise(NotRight, l, r, width) == Pow2(width) - 1 - r
  {
    if width > 0 {
      BitwiseComplement(l / 2, r / 2, width - 1);
    }
  }

  lemma ApplyTopBit(op: BitOp, l: Place, r: Place)
    ensures Apply(op, l, r) >= HalfB32 <==> ApplySign(op, l >= HalfB32, r >= HalfB32)
  {
    Pow2Word();
    BitwiseTop(op, l, r, 32);
  }

  lemma ApplyFill(op: BitOp, l: bool, r: bool)
    ensures Apply(op, Fill(l), Fill(r)) == Fill(ApplySign(op, l, r))
  {
    Pow2Word();
    BitwiseFill(op, l, r, 32);
  }

  lemma ComplementPlace(l: Place, r: Place)
    ensures Apply(NotRight, l, r) == MaxWord32 - r
  {
    Pow2Word();
    BitwiseComplement(l, r, 32);
  }
}
