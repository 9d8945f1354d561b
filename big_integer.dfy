/** The big integer of bigint/big_integer.cpp: a sequence of 32-bit places kept
    canonical (shortest two's-complement form), updated in place by every
    operation. Each method is proved against the two's-complement value of the
    places. */
module BigIntegers {
  import opened Arith
  import opened Words
  import opened TwosComplement
  import opened PlaceOps
  import opened Shifts
  import opened LongDivision
  import opened DivisionStep

  datatype Option<T> = None | Some(value: T)

  /** The places with the optional carry pushed on top. */
  function WithCarry(s: seq<Place>, carry: Option<Place>): seq<Place>
  {
    if carry.Some? then s + [carry.value] else s
  }

  /** `int`. */
  type Int32 = x: int | -0x8000_0000 <= x < 0x8000_0000


  function Abs(x: int): nat { if x < 0 then -x else x }

  /** `a <=> b` as the source's comparison returns it. */
  function Order(a: int, b: int): int
  {
    if a < b then -1 else if a == b then 0 else 1
  }

  lemma ShrinkStep(s: seq<Place>)
    requires |s| > 1 && s[|s| - 1] == Fill(SignBit(s)) && SignBit(s) == SignBit(s[..|s| - 1])
    ensures Value(s[..|s| - 1]) == Value(s)
  {
    hide Unsigned, Pow;
    var p := s[..|s| - 1];
    assert s == p + [Fill(SignBit(p))];
    ExtendValue(p);
  }

  /** One step of a carry loop: a place sum with carry in and out, weighted by p. */
  lemma CarryStep(sum: int, carryOut: int, carryIn: int, x: int, y: int, p: int)
    requires sum + carryOut * B32 == x + y + carryIn
    ensures sum * p + carryOut * (B32 * p) == x * p + y * p + carryIn * p
  {
    MulAssoc(carryOut, B32, p);
    MulDistrib(p, sum, carryOut * B32);
    MulDistrib(p, x + y, carryIn);
    MulDistrib(p, x, y);
  }

  /** The high half of a 32 x 32-bit product is at most 2^32 - 2, so adding a carry
      bit to it cannot overflow. */
  lemma ProductHighBound(left: Word32, right: Word32)
    ensures Mul32(left, right).1 <= B32 - 2
  {
    MulBothLt(left, right, B32, B32);
    var r := Mul32(left, right);
    if r.1 > B32 - 2 {
      MulLeRight(B32 - 1, r.1, B32);
    }
  }

  lemma CanonicalNonEmpty(s: seq<Place>)
    requires Canonical(s)
    ensures |s| >= 1
  {
  }

  /** After the `bit_shift` loop, the new places read as the shifted value and carry
      the old sign bit. */
  lemma ShiftResult(s: seq<Place>, rhs: int, t: seq<Place>, fill: Place, i: int)
    requires |s| >= 1
    requires var (places, bits) := ShiftSplit(rhs);
      && |t| == ShiftSize(|s|, places, if bits > 0 then 1 else 0)
      && fill == GetOrDefault(s, if rhs < 0 then |s| else -1)
      && i >= |s| + places + (if bits > 0 then 1 else 0) && i >= 0
      && (forall j :: 0 <= j < i && j < |t| ==> t[j] == Digit(Shifted(Value(s), rhs), j))
      && (forall j :: i <= j < |t| ==> t[j] == fill)
    ensures Value(t) == Shifted(Value(s), rhs) && SignBit(t) == SignBit(s)
  {
    var (places, bits) := ShiftSplit(rhs);
    FloorPlaces(rhs);
    var n := |s|;
    var w := Shifted(Value(s), rhs);
    ValueRange(s);
    if n + places + (if bits > 0 then 1 else 0) < 1 {
      ShiftPastEnd(Value(s), n, rhs);
      DivModUnique(-1, B32, -1, B32 - 1);
      assert t[0] == Digit(w, 0);
    }
    ShiftRange(Value(s), n, rhs, |t|);
    DigitsValue(t, w);
    ValueRange(t);
    ShiftedSign(Value(s), rhs);
  }

  /** Canonical place sequences are equal exactly when their values are. */
  lemma CanonicalEqual(a: seq<Place>, b: seq<Place>)
    requires Canonical(a) && Canonical(b)
    ensures a == b <==> Value(a) == Value(b)
  {
    if Value(a) == Value(b) {
      CanonicalUnique(a, b);
    }
  }

  /** Of two canonical numbers with the same sign, the one with more unsigned
      places is further from zero. */
  lemma SizeOrder(a: seq<Place>, b: seq<Place>)
    requires Canonical(a) && Canonical(b) && SignBit(a) == SignBit(b)
    requires UnsignedSize(a) > UnsignedSize(b)
    ensures SignBit(a) ==> Value(a) < Value(b)
    ensures !SignBit(a) ==> Value(a) > Value(b)
  {
    hide Unsigned;
    UnsignedSizeValue(a);
    UnsignedSizeValue(b);
    PowMono(UnsignedSize(b), UnsignedSize(a) - 1);
  }

  /** Same sign and unsigned size: the first differing place from the top decides. */
  lemma TopPlaceOrder(a: seq<Place>, b: seq<Place>, j: nat)
    requires Canonical(a) && Canonical(b) && SignBit(a) == SignBit(b)
    requires UnsignedSize(a) == UnsignedSize(b) && j < UnsignedSize(a)
    requires a[j + 1..UnsignedSize(a)] == b[j + 1..UnsignedSize(a)] && a[j] > b[j]
    ensures Value(a) > Value(b)
  {
    hide Unsigned, Pow;
    var size := UnsignedSize(a);
    UnsignedSizeValue(a);
    UnsignedSizeValue(b);
    SameTop(a, b, size, j);
    TopDifference(a[..size], b[..size], j);
  }

  /** Same sign, unsigned size and unsigned places: the same number. */
  lemma SamePlacesEqual(a: seq<Place>, b: seq<Place>)
    requires Canonical(a) && Canonical(b) && SignBit(a) == SignBit(b)
    requires UnsignedSize(a) == UnsignedSize(b)
    requires a[0..UnsignedSize(a)] == b[0..UnsignedSize(a)]
    ensures Value(a) == Value(b)
  {
    hide Unsigned, Pow;
    UnsignedSizeValue(a);
    UnsignedSizeValue(b);
    assert a[..UnsignedSize(a)] == b[..UnsignedSize(a)];
  }

  lemma SameTop(a: seq<Place>, b: seq<Place>, size: nat, j: nat)
    requires j < size <= |a| && size <= |b| && a[j + 1..size] == b[j + 1..size]
    ensures a[..size][j + 1..] == b[..size][j + 1..]
  {
    assert a[..size][j + 1..] == a[j + 1..size];
    assert b[..size][j + 1..] == b[j + 1..size];
  }

  /** Unsigned values compare like their first differing place from the top. */
  lemma TopDifference(a: seq<Place>, b: seq<Place>, j: nat)
    requires |a| == |b| && j < |a| && a[j + 1..] == b[j + 1..] && a[j] > b[j]
    ensures Unsigned(a) > Unsigned(b)
  {
    hide Unsigned, Pow;
    UnsignedSplit(a, j + 1);
    UnsignedSplit(b, j + 1);
    UnsignedPrefixStep(a, j);
    UnsignedPrefixStep(b, j);
    assert |b[..j]| == j;
    TopDifferenceArith(Unsigned(a[..j]), Unsigned(b[..j]), a[j], b[j], Pow(j), Pow(j + 1) * Unsigned(a[j + 1..]));
  }

  lemma TopDifferenceArith(lowA: int, lowB: int, x: int, y: int, p: int, high: int)
    requires 0 <= lowA && 0 <= lowB < p && y < x
    ensures lowA + x * p + high > lowB + y * p + high
  {
    MulLeRight(y + 1, x, p);
  }

  class BigInteger {
    var data: seq<Place>

    /** The class invariant of bigint/big_integer.h: the sign is the top bit of
        the last place and no shorter sequence has the same value. */
    ghost predicate Valid()
      reads this
    {
      Canonical(data)
    }

    /** `big_integer()`: zero. */
    constructor ()
      ensures Valid() && Value(data) == 0
    {
      data := [0];
    }

    /** `big_integer(int)`: the int's 32 bits as the only place. */
    constructor FromInt(a: Int32)
      ensures Valid() && Value(data) == a
    {
      data := [a % B32];
      assert Pow(1) == B32;
    }

    /** `big_integer(place_t)`: an unsigned place, extended with a zero place when
        its top bit is set. */
    constructor FromPlace(p: Place)
      ensures Valid() && Value(data) == p
    {
      data := [p];
      new;
      CorrectSignBit(false, None);
      assert [p][..0] == [];
    }

    /** The copy constructor. */
    constructor Copy(other: BigInteger)
      requires other.Valid()
      ensures Valid() && data == other.data
    {
      data := other.data;
    }

    /** `operator=`. */
    method Assign(other: BigInteger)
      requires other.Valid()
      modifies this
      ensures Valid() && data == old(other.data)
    {
      data := other.data;
    }

    /** `shrink`: drop the last place while it is the sign fill and the place
        below has the same sign bit. */
    method Shrink()
      requires |data| >= 1
      modifies this
      ensures Valid() && Value(data) == old(Value(data))
      ensures |data| <= |old(data)| && data == old(data)[..|data|]
    {
      hide Unsigned, Pow;
      while |data| > 1 && data[|data| - 1] == Fill(SignBit(data)) && SignBit(data) == SignBit(data[..|data| - 1])
        invariant 1 <= |data| <= |old(data)| && data == old(data)[..|data|]
        invariant Value(data) == old(Value(data))
        decreases |data|
      {
        ShrinkStep(data);
        data := data[..|data| - 1];
      }
    }

    /** `resize`: keep the first n places, or append the sign fill up to n places. */
    method Resize(n: nat)
      requires |data| >= 1
      modifies this
      ensures n <= |old(data)| ==> data == old(data)[..n]
      ensures n >= |old(data)| ==> data == ExtendTo(old(data), n)
    {
      if n <= |data| {
        data := data[..n];
      } else {
        data := ExtendTo(data, n);
      }
    }

    /** `correct_sign_bit` with the zero exception removed: after pushing the optional
        carry, the places are read as an unsigned number that has the expected sign,
        i.e. with infinitely many zero places, or with infinitely many all-ones places. */
    method CorrectSignBit(expected: bool, carry: Option<Place>)
      requires |data| >= 1
      modifies this
      ensures Valid()
      ensures var d := WithCarry(old(data), carry);
        Value(data) == Unsigned(d) - (if expected then Pow(|d|) else 0)
    {
      hide Unsigned, Pow;
      if carry.Some? {
        data := data + [carry.value];
      }
      ghost var d := data;
      if SignBit(data) != expected {
        PushSignValue(d, expected);
        data := data + [Fill(expected)];
      }
      Shrink();
    }

    /** `correct_sign_bit` as written: when the expected sign is negative but every
        place is zero, no all-ones place is pushed and the result reads as zero. */
    method CorrectSignBitAsWritten(expected: bool, carry: Option<Place>)
      requires |data| >= 1
      modifies this
      ensures Valid()
      ensures var d := WithCarry(old(data), carry);
        Value(data) == if expected && AllZero(d) then 0 else Unsigned(d) - (if expected then Pow(|d|) else 0)
    {
      hide Unsigned, Pow;
      if carry.Some? {
        data := data + [carry.value];
      }
      ghost var d := data;
      if SignBit(data) != expected && !(expected && AllZero(data)) {
        PushSignValue(d, expected);
        data := data + [Fill(expected)];
      }
      UnsignedAllZero(d);
      Shrink();
    }

    /** `place_wise` (and `iterate` with a place-by-place action): both operands
        sign-extended to the longer length and combined place by place. Read as
        infinite two's-complement place sequences, every place of the result is the
        operation applied to the operands' places. */
    method PlaceWise(rhs: BigInteger, op: BitOp)
      requires Valid() && rhs.Valid()
      modifies this
      ensures Valid()
      ensures forall k: nat ::
        GetOrDefault(data, k) == Apply(op, GetOrDefault(old(data), k), GetOrDefault(old(rhs.data), k))
    {
      hide Unsigned, Pow;
      var r := rhs.data;
      ghost var l := data;
      Resize(Max(|data|, |r|));
      var i := 0;
      while i < |data|
        invariant |data| == Max(|l|, |r|) && 0 <= i <= |data|
        invariant forall j :: 0 <= j < i ==> data[j] == Apply(op, GetOrDefault(l, j), GetOrDefault(r, j))
        invariant forall j :: i <= j < |data| ==> data[j] == GetOrDefault(l, j)
      {
        data := data[i := Apply(op, data[i], GetOrDefault(r, i))];
        i := i + 1;
      }
      PlaceWiseAllPlaces(l, r, data, op);
      ghost var combined := data;
      Shrink();
      SamePlaces(data, combined);
    }

    /** `operator~`: `big_integer().place_wise(*this, ~y)`, which holds -x - 1. */
    method Complement() returns (r: BigInteger)
      requires Valid()
      ensures fresh(r) && r.Valid() && Value(r.data) == -1 - Value(data)
    {
      hide Unsigned, Pow;
      r := new BigInteger();
      ghost var zero := r.data;
      r.PlaceWise(this, NotRight);
      ComplementedValue(data);
      forall k: nat
        ensures GetOrDefault(r.data, k) == GetOrDefault(Complemented(data), k)
      {
        ComplementPlace(GetOrDefault(zero, k), GetOrDefault(data, k));
      }
      ValueFromPlaces(r.data, Complemented(data));
    }

    /** `operator+=`: add place by place with a carry, then, when both signs are
        equal, make the result carry that sign. */
    method AddAssign(rhs: BigInteger)
      requires Valid() && rhs.Valid()
      modifies this
      ensures Valid() && Value(data) == old(Value(data)) + old(Value(rhs.data))
    {
      hide Unsigned, Pow;
      var oldSign, rhsSign := SignBit(data), SignBit(rhs.data);
      var carry := AddPlaces(rhs);
      if oldSign == rhsSign {
        CorrectSignBit(oldSign, None);
      }
      Shrink();
    }

    /** `operator+=` as written (`correct_sign_bit` with its zero exception): the
        sum -2^(32 n), n the longer operand's place count, comes out as 0. */
    method AddAssignAsWritten(rhs: BigInteger)
      requires Valid() && rhs.Valid()
      modifies this
      ensures Valid()
      ensures var sum := old(Value(data)) + old(Value(rhs.data));
        Value(data) == if sum == -Pow(Max(|old(data)|, |old(rhs.data)|)) then 0 else sum
    {
      hide Unsigned, Pow;
      var oldSign, rhsSign := SignBit(data), SignBit(rhs.data);
      ghost var n := Max(|data|, |rhs.data|);
      ghost var sum := Value(data) + Value(rhs.data);
      var carry := AddPlaces(rhs);
      ghost var s := data;
      PowHalf(n);
      if oldSign == rhsSign {
        UnsignedAllZero(s);
        CorrectSignBitAsWritten(oldSign, None);
        assert Value(data) == if sum == -Pow(n) then 0 else sum;
      } else {
        ValueRange(s);
      }
      Shrink();
    }

    /** The carry loop of `operator+=` (`iterate` with `addc`): both operands
        sign-extended to the longer length and added with a carry. The new places
        are the sum of the two extended operands' values, read by their signs. */
    method AddPlaces(rhs: BigInteger) returns (carry: bool)
      requires Valid() && rhs.Valid()
      modifies this
      ensures |data| == Max(|old(data)|, |old(rhs.data)|)
      ensures var sum := old(Value(data)) + old(Value(rhs.data));
        && (SignBit(old(data)) != SignBit(old(rhs.data)) ==> Value(data) == sum)
        && (!SignBit(old(data)) && !SignBit(old(rhs.data)) ==> Unsigned(data) == sum)
        && (SignBit(old(data)) && SignBit(old(rhs.data)) ==> Unsigned(data) - Pow(|data|) == sum)
    {
      hide Unsigned, Pow;
      var r := rhs.data;
      ghost var l := data;
      Resize(Max(|data|, |r|));
      ghost var lx, rx := data, ExtendTo(r, |data|);
      ExtendToValue(l, |data|);
      ExtendToValue(r, |data|);
      carry := false;
      var i := 0;
      UnsignedEmpty(data[..0]);
      UnsignedEmpty(lx[..0]);
      UnsignedEmpty(rx[..0]);
      while i < |data|
        invariant |data| == |lx| && 0 <= i <= |data|
        invariant forall k :: i <= k < |data| ==> data[k] == lx[k]
        invariant Unsigned(data[..i]) + (if carry then Pow(i) else 0) == Unsigned(lx[..i]) + Unsigned(rx[..i])
      {
        var x, y := data[i], GetOrDefault(r, i);
        assert x == lx[i] && y == rx[i];
        var sum := AddC(B32, x, y, carry);
        AddLoopStep(data, lx, rx, i, carry, sum.0, sum.1);
        data := data[i := sum.0];
        carry := sum.1;
        i := i + 1;
      }
      assert data[..i] == data && lx[..i] == lx && rx[..i] == rx;
      AddCases(lx, rx, data, carry);
    }

    /** `operator-` (unary): `~x + 1`. */
    method Negated() returns (r: BigInteger)
      requires Valid()
      ensures fresh(r) && r.Valid() && Value(r.data) == -Value(data)
    {
      r := Complement();
      var one := new BigInteger.FromInt(1);
      r.AddAssign(one);
    }

    /** `revert_sign`: negate when the sign bit differs from `sign` (zero stays zero). */
    method RevertSign(sign: bool)
      requires Valid()
      modifies this
      ensures Valid()
      ensures Value(data) == if SignBit(old(data)) != sign then -old(Value(data)) else old(Value(data))
    {
      hide Unsigned, Pow;
      if SignBit(data) != sign {
        var negated := Negated();
        data := negated.data;
      }
    }

    /** `make_absolute`: the old sign bit, and the absolute value in place. */
    method MakeAbsolute() returns (sign: bool)
      requires Valid()
      modifies this
      ensures Valid() && (sign <==> old(Value(data)) < 0) && Value(data) == Abs(old(Value(data)))
    {
      hide Unsigned, Pow;
      ValueRange(data);
      sign := SignBit(data);
      RevertSign(false);
    }

    /** `operator-=`: `*this += -rhs`. */
    method SubAssign(rhs: BigInteger)
      requires Valid() && rhs.Valid()
      modifies this
      ensures Valid() && Value(data) == old(Value(data)) - old(Value(rhs.data))
    {
      var negated := rhs.Negated();
      AddAssign(negated);
    }

    /** Prefix `operator++`. */
    method Increment()
      requires Valid()
      modifies this
      ensures Valid() && Value(data) == old(Value(data)) + 1
    {
      var one := new BigInteger.FromInt(1);
      AddAssign(one);
    }

    /** Prefix `operator--`. */
    method Decrement()
      requires Valid()
      modifies this
      ensures Valid() && Value(data) == old(Value(data)) - 1
    {
      var one := new BigInteger.FromInt(1);
      SubAssign(one);
    }

    /** Postfix `operator++`: a copy of the old value is returned. */
    method PostIncrement() returns (r: BigInteger)
      requires Valid()
      modifies this
      ensures Valid() && Value(data) == old(Value(data)) + 1
      ensures fresh(r) && r.Valid() && Value(r.data) == old(Value(data))
    {
      r := new BigInteger.Copy(this);
      Increment();
    }

    /** Postfix `operator--`. */
    method PostDecrement() returns (r: BigInteger)
      requires Valid()
      modifies this
      ensures Valid() && Value(data) == old(Value(data)) - 1
      ensures fresh(r) && r.Valid() && Value(r.data) == old(Value(data))
    {
      r := new BigInteger.Copy(this);
      Decrement();
    }

    /** `short_multiply`: multiply the absolute value place by place with a carried
        high half, append the final carry, and restore the sign. */
    method ShortMultiply(rhs: Place)
      requires Valid()
      modifies this
      ensures Valid() && Value(data) == old(Value(data)) * rhs
    {
      hide Unsigned, Pow;
      var oldSign := MakeAbsolute();
      ghost var magnitude := Value(data);
      ValueRange(data);
      var carry := MultiplyPlaces(rhs);
      var top := if carry == 0 then None else Some(carry);
      UnsignedAppend(data, carry);
      assert Unsigned(WithCarry(data, top)) == magnitude * rhs;
      CorrectSignBit(false, top);
      ValueRange(data);
      assert Value(data) == magnitude * rhs && !SignBit(data);
      if oldSign {
        NegMul(old(Value(data)), rhs);
      }
      RevertSign(oldSign);
    }

    /** The loop of `short_multiply` (`iterate` with `mul` and two `addc`): the
        places times rhs, with the last carried high half left over. */
    method MultiplyPlaces(rhs: Place) returns (carry: Place)
      requires |data| >= 1
      modifies this
      ensures |data| == |old(data)|
      ensures Unsigned(data) + carry * Pow(|data|) == old(Unsigned(data)) * rhs
    {
      hide Unsigned, Pow;
      ghost var a := data;
      carry := 0;
      var i := 0;
      UnsignedEmpty(data[..0]);
      UnsignedEmpty(a[..0]);
      while i < |data|
        invariant |data| == |a| && 0 <= i <= |data|
        invariant data[i..] == a[i..]
        invariant Unsigned(data[..i]) + carry * Pow(i) == Unsigned(a[..i]) * rhs
      {
        var x := data[i];
        assert x == a[i];
        var product := Mul32(x, rhs);
        ProductHighBound(x, rhs);
        var low := AddC(B32, product.0, carry, false);
        var high := AddC(B32, product.1, 0, low.1);
        MultiplyLoopStep(data, a, i, rhs, carry, product.0, product.1, low.0, BoolToInt(low.1));
        data := data[i := low.0];
        carry := high.0;
        i := i + 1;
      }
      assert data[..i] == data && a[..i] == a;
    }

    /** `operator*=`: the absolute values are multiplied by summing, for every place
        r_i of the right operand, the copy `|this| * r_i` shifted left by 32 i bits;
        the sign of the product is restored at the end. The shift amount is an `int`
        in the source, hence the bound on the right operand's size. */
    method MulAssign(rhs: BigInteger)
      requires Valid() && rhs.Valid() && |rhs.data| < 0x400_0000
      modifies this
      ensures Valid() && Value(data) == old(Value(data)) * old(Value(rhs.data))
    {
      hide Unsigned, Pow, Shifted;
      ghost var a, b, n := Value(data), Value(rhs.data), |rhs.data|;
      ValueRange(rhs.data);
      var rhsSign := SignBit(rhs.data);
      var thisSign := MakeAbsolute();
      var sign := thisSign != rhsSign;
      var right := new BigInteger.Copy(rhs);
      if SignBit(rhs.data) {
        right := rhs.Negated();
      }
      assert Value(right.data) == Abs(b) by {
        if rhs == this {
          ValueRange(data);
        }
      }
      RightSizeBound(right.data, n);
      var res := MultiplyMagnitudes(right);
      ghost var m := Abs(a) * Abs(b);
      assert Value(res.data) == m by {
        ValueRange(right.data);
      }
      SignedMagnitude(a, b, thisSign, rhsSign, sign);
      assert !SignBit(res.data) by {
        ValueRange(res.data);
      }
      res.RevertSign(sign);
      Assign(res);
    }

    /** The loop of `operator*=` on the absolute values: for every place r_i of the
        right operand, `res += big_integer(*this).short_multiply(r_i) << i * 32`. */
    method MultiplyMagnitudes(right: BigInteger) returns (res: BigInteger)
      requires Valid() && right.Valid() && |right.data| <= 0x400_0000
      ensures fresh(res) && res.Valid() && Value(res.data) == Value(data) * Unsigned(right.data)
    {
      hide Unsigned, Pow, Shifted;
      res := new BigInteger();
      var i := 0;
      UnsignedEmpty(right.data[..0]);
      while i < |right.data|
        invariant 0 <= i <= |right.data|
        invariant fresh(res) && res.Valid()
        invariant Value(res.data) == Value(data) * Unsigned(right.data[..i])
      {
        var term := new BigInteger.Copy(this);
        term.ShortMultiply(right.data[i]);
        term.BitShift(i * 32);
        ShiftedPlace(Value(data), right.data, i);
        res.AddAssign(term);
        i := i + 1;
      }
      assert right.data[..i] == right.data;
    }

    /** `short_divide` (the source calls it on non-negative values only): divide
        from the top place down, carrying the remainder into the next 64-bit
        dividend, so that every quotient place fits 32 bits. */
    method ShortDivide(rhs: Place) returns (rem: Place)
      requires Valid() && Value(data) >= 0 && rhs != 0
      modifies this
      ensures Valid() && Value(data) == old(Value(data)) / rhs && rem == old(Value(data)) % rhs
    {
      hide Unsigned, Pow;
      ghost var a := data;
      ValueRange(a);
      rem := 0;
      var i := |data|;
      UnsignedEmpty(a[i..]);
      UnsignedEmpty(data[i..]);
      while i > 0
        invariant 0 <= i <= |a| && |data| == |a| && data[..i] == a[..i]
        invariant rem < rhs
        invariant Unsigned(a[i..]) == Unsigned(data[i..]) * rhs + rem
      {
        i := i - 1;
        var x := data[i];
        var qr := Div2By1(x, rem, rhs);
        assert x == a[i];
        DivModBounds(rem * B32 + x, rhs);
        DivideLoopStep(data, a, i, rhs, rem, qr.0, qr.1);
        data := data[i := qr.0];
        rem := qr.1;
      }
      assert a[0..] == a && data[0..] == data;
      ShortQuotient(a, data, rhs, rem);
      Shrink();
    }

    /** `big_integer(d).short_multiply(qt) <<= k * 32`: the multiple of the divisor
        that a trial digit qt at place k stands for. */
    static method ShiftedMultiple(d: BigInteger, qt: Place, k: nat) returns (dq: BigInteger)
      requires d.Valid() && k < 0x400_0000
      ensures fresh(dq) && dq.Valid() && Value(dq.data) == qt * (Value(d.data) * Pow(k))
    {
      hide Unsigned, Pow, Value, Shifted;
      dq := new BigInteger.Copy(d);
      dq.ShortMultiply(qt);
      dq.BitShift(k * 32);
      ShiftedPlaceMultiple(Value(d.data), qt, k);
    }

    /** One step of the quotient-digit loop of `long_divide`: the k-th digit is
        estimated by `div3_2` from the remainder's places k + m down to k + m - 2 and
        the divisor's top two places, decreased once when its multiple exceeds the
        remainder, and the multiple is subtracted. The digit is the exact k-th digit
        of the quotient. */
    static method TrialStep(rem: BigInteger, d: BigInteger, k: nat, m: nat, dLow: Place, dHigh: Place)
        returns (qt: Place)
      requires rem != d && rem.Valid() && d.Valid() && m >= 2 && k < 0x400_0000
      requires HalfPow(m) <= Value(d.data) < Pow(m)
      requires dHigh == Digit(Value(d.data), m - 1) && dLow == Digit(Value(d.data), m - 2)
      requires 0 <= Value(rem.data) < Value(d.data) * Pow(k + 1)
      modifies rem
      ensures rem.Valid()
      ensures qt == old(Value(rem.data)) / (Value(d.data) * Pow(k))
      ensures Value(rem.data) == old(Value(rem.data)) % (Value(d.data) * Pow(k))
    {
      hide Unsigned, Pow, Shifted, Digit, Div3By2;
      ghost var r, dv := Value(rem.data), Value(d.data);
      NonNegativePlace(rem.data, k + m);
      NonNegativePlace(rem.data, k + m - 1);
      NonNegativePlace(rem.data, k + m - 2);
      var r3High := if k + m >= |rem.data| then 0 else rem.data[k + m];
      var r3Med := if k + m - 1 >= |rem.data| then 0 else rem.data[k + m - 1];
      var r3Low := if k + m - 2 >= |rem.data| then 0 else rem.data[k + m - 2];
      NormalizedTop(dv, m);
      TrialDigitEstimate(r, dv, k, m);
      var est := Div3By2(r3Low, r3Med, r3High, dLow, dHigh).0;
      ghost var unit := dv * Pow(k);
      assert 0 < unit by {
        MulLtRight(0, dv, Pow(k));
      }
      assert r3High == Digit(r, k + m) && r3Med == Digit(r, k + m - 1) && r3Low == Digit(r, k + m - 2);
      assert est == Div3By2(Digit(r, k + m - 2), Digit(r, k + m - 1), Digit(r, k + m),
                            Digit(dv, m - 2), Digit(dv, m - 1)).0;
      assert r / unit <= est <= r / unit + 1;
      var dq := ShiftedMultiple(d, est, k);
      var less := Less(rem, dq);
      qt := est;
      if less {
        assert est != 0;
        qt := est - 1;
        dq := ShiftedMultiple(d, qt, k);
      }
      assert qt == r / unit by {
        CorrectedDigit(r, unit, est);
      }
      DivModBounds(r, unit);
      rem.SubAssign(dq);
    }

    /** The quotient-digit loop of `long_divide`, from digit n - m down to 0, on the
        normalised remainder and divisor: the digits form the quotient and what is
        left of the remainder is below the divisor. */
    static method QuotientPlaces(rem: BigInteger, d: BigInteger, n: nat, m: nat) returns (q: seq<Place>)
      requires rem != d && rem.Valid() && d.Valid() && 2 <= m <= n <= 0x400_0000
      requires HalfPow(m) <= Value(d.data) < Pow(m) && |d.data| >= m
      requires 0 <= Value(rem.data) < Value(d.data) * Pow(n - m + 1)
      modifies rem
      ensures rem.Valid() && |q| == n - m + 1
      ensures old(Value(rem.data)) == Unsigned(q) * Value(d.data) + Value(rem.data)
      ensures 0 <= Value(rem.data) < Value(d.data)
    {
      hide Unsigned, Pow, Digit;
      ghost var a, dv := Value(rem.data), Value(d.data);
      NonNegativePlace(d.data, m - 1);
      NonNegativePlace(d.data, m - 2);
      var dHigh, dLow := d.data[m - 1], d.data[m - 2];
      q := seq(n - m + 1, _ => 0);
      UnsignedAllZero(q);
      var ki := 0;
      while ki <= n - m
        invariant 0 <= ki <= n - m + 1 && |q| == n - m + 1
        invariant rem.Valid() && 0 <= Value(rem.data) < dv * Pow(n - m + 1 - ki)
        invariant a == Unsigned(q) * dv + Value(rem.data)
        invariant forall j :: 0 <= j < n - m + 1 - ki ==> q[j] == 0
      {
        var k := n - m - ki;
        ghost var r := Value(rem.data);
        var qt := TrialStep(rem, d, k, m, dLow, dHigh);
        UnsignedUpdate(q, k, qt);
        DivModBounds(r, dv * Pow(k));
        DigitStepInvariant(a, Unsigned(q), dv, r, qt, Pow(k), Unsigned(q[k := qt]), Value(rem.data));
        q := q[k := qt];
        ki := ki + 1;
      }
      PowZero();
    }

    /** One step of the quotient-digit loop as written: the three places of the
        remainder are read as the code reads them (0 past the last place), the
        estimate comes from `div3_2` as written, it is corrected at most once (an
        unsigned decrement, so 0 becomes 2^32 - 1), and its multiple is subtracted
        whatever the estimate was. */
    static method TrialStepAsWritten(rem: BigInteger, d: BigInteger, k: nat, m: nat, dLow: Place, dHigh: Place)
        returns (qt: Place)
      requires rem != d && rem.Valid() && d.Valid() && m >= 2 && k < 0x400_0000 && dHigh != 0
      modifies rem
      ensures rem.Valid()
      ensures qt == TrialDigitAsWritten(old(Value(rem.data)), Value(d.data), k, m, dLow, dHigh)
      ensures Value(rem.data) == old(Value(rem.data)) - qt * (Value(d.data) * Pow(k))
    {
      hide Unsigned, Pow, Digit, Div3By2AsWritten, Window, CanonicalSize;
      WindowRead(rem.data, k + m);
      WindowRead(rem.data, k + m - 1);
      WindowRead(rem.data, k + m - 2);
      var r3High := if k + m >= |rem.data| then 0 else rem.data[k + m];
      var r3Med := if k + m - 1 >= |rem.data| then 0 else rem.data[k + m - 1];
      var r3Low := if k + m - 2 >= |rem.data| then 0 else rem.data[k + m - 2];
      var est := Div3By2AsWritten(r3Low, r3Med, r3High, dLow, dHigh).0;
      var dq := ShiftedMultiple(d, est, k);
      var less := Less(rem, dq);
      qt := est;
      if less {
        qt := if est == 0 then MaxWord32 else est - 1;
        dq := ShiftedMultiple(d, qt, k);
      }
      rem.SubAssign(dq);
    }

    /** The quotient-digit loop of `long_divide` as written, on the normalised
        remainder and divisor: it computes the digits of `DigitLoopAsWritten`, and
        dividend == quotient * divisor + remainder holds whatever they are, but the
        remainder is no longer bounded by the divisor (see `DigitLoopTruncated`). */
    static method QuotientPlacesAsWritten(rem: BigInteger, d: BigInteger, n: nat, m: nat) returns (q: seq<Place>)
      requires rem != d && rem.Valid() && d.Valid() && 2 <= m <= n <= 0x400_0000
      requires HalfPow(m) <= Value(d.data) < Pow(m) && |d.data| >= m
      modifies rem
      ensures rem.Valid()
      ensures (q, Value(rem.data)) == QuotientLoopAsWritten(old(Value(rem.data)), Value(d.data), n, m)
      ensures old(Value(rem.data)) == Unsigned(q) * Value(d.data) + Value(rem.data)
    {
      hide Unsigned, Pow, Digit, TrialDigitAsWritten, Window, CanonicalSize, Div3By2AsWritten;
      ghost var a, dv := Value(rem.data), Value(d.data);
      NonNegativePlace(d.data, m - 1);
      NonNegativePlace(d.data, m - 2);
      NormalizedTop(dv, m);
      var dHigh, dLow := d.data[m - 1], d.data[m - 2];
      q := seq(n - m + 1, _ => 0);
      ghost var zeros := q;
      var ki := 0;
      while ki <= n - m
        invariant 0 <= ki <= n - m + 1 && |q| == n - m + 1
        invariant rem.Valid()
        invariant DigitLoopAsWritten(Value(rem.data), dv, n - m - ki, m, dLow, dHigh, q)
                  == DigitLoopAsWritten(a, dv, n - m, m, dLow, dHigh, zeros)
      {
        var k := n - m - ki;
        ghost var r := Value(rem.data);
        var qt := TrialStepAsWritten(rem, d, k, m, dLow, dHigh);
        DigitLoopStep(r, dv, k, m, dLow, dHigh, q);
        q := q[k := qt];
        ki := ki + 1;
      }
      assert DigitLoopAsWritten(Value(rem.data), dv, -1, m, dLow, dHigh, q) == (q, Value(rem.data));
      assert QuotientLoopAsWritten(a, dv, n, m) == DigitLoopAsWritten(a, dv, n - m, m, dLow, dHigh, zeros);
      DigitLoopIdentity(a, dv, n - m, m, dLow, dHigh, zeros);
      UnsignedAllZero(zeros);
    }

    /** `long_divide` on non-negative operands (`this` made absolute, `right` the
        absolute divisor): a one-place divisor goes to `short_divide`, a divisor with
        more places than the dividend gives quotient 0, and otherwise both operands
        are normalised and the quotient is found digit by digit. */
    method DivideMagnitudes(right: BigInteger, rem: BigInteger)
      requires rem != this && right != this && right != rem
      requires Valid() && right.Valid() && Value(data) >= 0 && Value(right.data) > 0
      requires |data| <= 0x400_0000
      modifies this, rem
      ensures Valid() && rem.Valid()
      ensures Value(data) == old(Value(data)) / Value(right.data)
      ensures Value(rem.data) == old(Value(data)) % Value(right.data)
    {
      hide Unsigned, Pow, Digit;
      ghost var a, dv := Value(data), Value(right.data);
      var n, m := UnsignedSize(data), UnsignedSize(right.data);
      ValueRange(data);
      ValueRange(right.data);
      UnsignedSizeValue(data);
      UnsignedSizeValue(right.data);
      if m == 1 {
        OnePlaceValue(right.data);
        var r := ShortDivide(right.data[0]);
        var fromPlace := new BigInteger.FromPlace(r);
        rem.Assign(fromPlace);
        assert Value(data) == a / dv && Value(rem.data) == a % dv;
      } else if m > n {
        PowMono(n, m - 1);
        rem.Assign(this);
        var zero := new BigInteger();
        Assign(zero);
        DivModUnique(a, dv, 0, a);
      } else {
        DivideNormalized(right, rem, n, m);
      }
    }

    /** The normalisation step of `long_divide`: the factor `2^32 / (top + 1)`, or 1
        when the divisor's top place is already 2^32 - 1, multiplies both the
        remainder and the divisor, after which the divisor's top bit is set. */
    static method Normalize(rem: BigInteger, d: BigInteger, m: nat) returns (f: Place)
      requires rem != d && rem.Valid() && d.Valid() && 1 <= m <= |d.data|
      requires Pow(m - 1) <= Value(d.data) < Pow(m)
      modifies rem, d
      ensures rem.Valid() && d.Valid() && f >= 1
      ensures Value(rem.data) == old(Value(rem.data)) * f && Value(d.data) == old(Value(d.data)) * f
      ensures HalfPow(m) <= Value(d.data) < Pow(m)
    {
      hide Unsigned, Pow, Digit;
      ghost var dv := Value(d.data);
      NonNegativePlace(d.data, m - 1);
      TopPlace(dv, m);
      var top := d.data[m - 1];
      Normalization(dv, m, top);
      f := if top == MaxWord32 then 1 else Div2By1(0, 1, top + 1).0;
      rem.ShortMultiply(f);
      d.ShortMultiply(f);
    }

    /** The last case of `long_divide`: the divisor has at least two places and no
        more than the dividend. Both are multiplied by the factor that sets the
        divisor's top bit, the quotient is found digit by digit, and the remainder
        is divided by the factor again. */
    method DivideNormalized(right: BigInteger, rem: BigInteger, n: nat, m: nat)
      requires rem != this && right != this && right != rem
      requires Valid() && right.Valid() && Value(data) >= 0 && Value(right.data) > 0
      requires |data| <= 0x400_0000
      requires n == UnsignedSize(data) && m == UnsignedSize(right.data) && 1 < m <= n
      modifies this, rem
      ensures Valid() && rem.Valid()
      ensures Value(data) == old(Value(data)) / Value(right.data)
      ensures Value(rem.data) == old(Value(data)) % Value(right.data)
    {
      hide Unsigned, Pow, Digit;
      ghost var a, dv := Value(data), Value(right.data);
      ValueRange(data);
      ValueRange(right.data);
      UnsignedSizeValue(data);
      UnsignedSizeValue(right.data);
      rem.Assign(this);
      var d := new BigInteger.Copy(right);
      var f := Normalize(rem, d, m);
      FirstRemainder(a, dv, f, n, m);
      PlacesForValue(d.data, m);
      var q := QuotientPlaces(rem, d, n, m);
      ghost var r := Value(rem.data);
      NormalizedDivision(a, dv, f, Unsigned(q), r);
      var dummy := rem.ShortDivide(f);
      data := q;
      CorrectSignBit(false, None);
    }

    /** `long_divide`: the quotient into `this` and the remainder into `rem`, rounded
        toward zero like C++ `/` and `%`. The divisor's sign is read before the
        dividend is made absolute, so that `a /= a` divides a by itself. */
    method LongDivide(rhs: BigInteger, rem: BigInteger)
      requires Valid() && rhs.Valid() && rem != this
      requires Value(rhs.data) != 0 && |data| < 0x400_0000
      modifies this, rem
      ensures Valid() && rem.Valid()
      ensures Value(data) == TruncDiv(old(Value(data)), old(Value(rhs.data)))
      ensures Value(rem.data) == TruncMod(old(Value(data)), old(Value(rhs.data)))
    {
      hide Unsigned, Pow, TruncDiv, TruncMod;
      ghost var a, b, size := Value(data), Value(rhs.data), |data|;
      ValueRange(data);
      ValueRange(rhs.data);
      var rhsSign := SignBit(rhs.data);
      var thisSign := MakeAbsolute();
      var sign := thisSign != rhsSign;
      var right := new BigInteger.Copy(rhs);
      if SignBit(rhs.data) {
        right := rhs.Negated();
      }
      assert Value(right.data) == Abs(b) by {
        if rhs == this {
          ValueRange(data);
        }
      }
      RightSizeBound(data, size);
      DivideMagnitudes(right, rem);
      ghost var q, r := Value(data), Value(rem.data);
      assert q == Abs(a) / Abs(b) && r == Abs(a) % Abs(b);
      assert q >= 0 && r >= 0 by {
        DivLeSelf(Abs(a), Abs(b));
        ModLeSelf(Abs(a), Abs(b));
      }
      ValueRange(rem.data);
      ValueRange(data);
      rem.RevertSign(thisSign);
      assert Value(rem.data) == if a < 0 then -r else r;
      RevertSign(sign);
      assert Value(data) == if (a < 0) != (b < 0) then -q else q;
      TruncParts(a, b);
    }

    /** `long_divide` with its statements in the order written: `make_absolute()`
        runs before the divisor's sign is read, so when the divisor is `this` itself
        (`a /= a`, `a %= a` is not affected) a negative dividend gives the quotient
        with the wrong sign. The quotient digits come from the corrected `div3_2`
        (`DivideMagnitudes`), so only the order of the statements is as written;
        the digit loop as written is `QuotientPlacesAsWritten`. */
    method LongDivideAbsoluteFirst(rhs: BigInteger, rem: BigInteger)
      requires Valid() && rhs.Valid() && rem != this
      requires Value(rhs.data) != 0 && |data| < 0x400_0000
      modifies this, rem
      ensures Valid() && rem.Valid()
      ensures var a, b := old(Value(data)), old(Value(rhs.data));
        Value(data) == if rhs == this && a < 0 then -TruncDiv(a, b) else TruncDiv(a, b)
      ensures Value(rem.data) == TruncMod(old(Value(data)), old(Value(rhs.data)))
      ensures rhs == this && old(Value(data)) < 0 ==> Value(data) == -1
    {
      hide Unsigned, Pow, TruncDiv, TruncMod;
      ghost var a, b, size := Value(data), Value(rhs.data), |data|;
      ValueRange(data);
      ValueRange(rhs.data);
      var thisSign := MakeAbsolute();
      var sign := thisSign != SignBit(rhs.data);
      var right := new BigInteger.Copy(rhs);
      if SignBit(rhs.data) {
        right := rhs.Negated();
      }
      assert Value(right.data) == Abs(b) by {
        if rhs == this {
          ValueRange(data);
        }
      }
      RightSizeBound(data, size);
      DivideMagnitudes(right, rem);
      ghost var q, r := Value(data), Value(rem.data);
      assert q == Abs(a) / Abs(b) && r == Abs(a) % Abs(b);
      assert q >= 0 && r >= 0 by {
        DivLeSelf(Abs(a), Abs(b));
        ModLeSelf(Abs(a), Abs(b));
      }
      ValueRange(rem.data);
      ValueRange(data);
      rem.RevertSign(thisSign);
      RevertSign(sign);
      TruncParts(a, b);
      if rhs == this && a < 0 {
        DivModUnique(Abs(a), Abs(a), 1, 0);
      }
    }

    /** `operator/=`: `long_divide` with a scratch remainder. */
    method DivAssign(rhs: BigInteger)
      requires Valid() && rhs.Valid() && Value(rhs.data) != 0 && |data| < 0x400_0000
      modifies this
      ensures Valid() && Value(data) == TruncDiv(old(Value(data)), old(Value(rhs.data)))
    {
      var dummy := new BigInteger();
      LongDivide(rhs, dummy);
    }

    /** `operator%=`: a copy of `this` is divided and the remainder lands in `this`. */
    method ModAssign(rhs: BigInteger)
      requires Valid() && rhs.Valid() && Value(rhs.data) != 0 && |data| < 0x400_0000
      modifies this
      ensures Valid() && Value(data) == TruncMod(old(Value(data)), old(Value(rhs.data)))
    {
      var quotient := new BigInteger.Copy(this);
      quotient.LongDivide(rhs, this);
    }

    /** `operator&=`. */
    method AndAssign(rhs: BigInteger)
      requires Valid() && rhs.Valid()
      modifies this
      ensures Valid()
      ensures forall k: nat ::
        GetOrDefault(data, k) == Apply(And, GetOrDefault(old(data), k), GetOrDefault(old(rhs.data), k))
    {
      PlaceWise(rhs, And);
    }

    /** `operator|=`. */
    method OrAssign(rhs: BigInteger)
      requires Valid() && rhs.Valid()
      modifies this
      ensures Valid()
      ensures forall k: nat ::
        GetOrDefault(data, k) == Apply(Or, GetOrDefault(old(data), k), GetOrDefault(old(rhs.data), k))
    {
      PlaceWise(rhs, Or);
    }

    /** `operator^=`. */
    method XorAssign(rhs: BigInteger)
      requires Valid() && rhs.Valid()
      modifies this
      ensures Valid()
      ensures forall k: nat ::
        GetOrDefault(data, k) == Apply(Xor, GetOrDefault(old(data), k), GetOrDefault(old(rhs.data), k))
    {
      PlaceWise(rhs, Xor);
    }

    /** `bit_shift` (`<<=` for rhs > 0, `>>=` for -rhs): every new place is built
        from the one or two source places it overlaps, the places below a left
        shift are zero, and the new place count is computed on signed integers
        (as written, a negative count wraps around; see `ShiftSizeAsWritten`). */
    method BitShift(rhs: Int32)
      requires Valid()
      modifies this
      ensures Valid() && Value(data) == Shifted(old(Value(data)), rhs)
    {
      hide Unsigned, Pow, Shifted, Digit, Apply, ShiftLeftPlace, ShiftRightPlace;
      var sign := SignBit(data);
      var (places, bits) := ShiftSplit(rhs);
      FloorPlaces(rhs);
      var end := |data| + places + (if bits > 0 then 1 else 0);
      var fill := GetOrDefault(data, if rhs < 0 then |data| else -1);
      var newData := seq(ShiftSize(|data|, places, if bits > 0 then 1 else 0), _ => fill);
      ghost var w := Shifted(Value(data), rhs);
      var i := if places > 0 then places else 0;
      forall j | 0 <= j < i
        ensures fill == Digit(w, j)
      {
        ShiftPlaceBelow(Value(data), places, bits, j);
      }
      while i < end
        invariant data == old(data)
        invariant |newData| == ShiftSize(|data|, places, if bits > 0 then 1 else 0)
        invariant places <= i && 0 <= i
        invariant forall j :: 0 <= j < i && j < |newData| ==> newData[j] == Digit(w, j)
        invariant forall j :: i <= j < |newData| ==> newData[j] == fill
      {
        var place;
        if bits == 0 {
          ShiftPlaceWhole(data, places, i);
          place := data[i - places];
        } else {
          ShiftPlaceBits(data, places, bits, i);
          place := Apply(Or, ShiftLeftPlace(GetOrDefault(data, i - places), bits),
                             ShiftRightPlace(GetOrDefault(data, i - places - 1), 32 - bits));
        }
        newData := newData[i := place];
        i := i + 1;
      }
      ShiftResult(data, rhs, newData, fill, i);
      data := newData;
      CorrectSignBit(sign, None);
    }

    /** `compare`: signs first, then the unsigned sizes, then the places from the
        top of the unsigned part down. */
    static method Compare(l: BigInteger, r: BigInteger) returns (c: int)
      requires l.Valid() && r.Valid()
      ensures c == Order(Value(l.data), Value(r.data))
    {
      hide Unsigned, Pow, Value, Canonical, UnsignedSize, SignBit;
      CanonicalNonEmpty(l.data);
      CanonicalNonEmpty(r.data);
      var lsign, rsign := SignBit(l.data), SignBit(r.data);
      if lsign != rsign {
        ValueRange(l.data);
        ValueRange(r.data);
        return BoolToInt(rsign) - BoolToInt(lsign);
      }
      var sign := if lsign then -1 else 1;
      var lsize, rsize := UnsignedSize(l.data), UnsignedSize(r.data);
      if lsize != rsize {
        if lsize > rsize {
          SizeOrder(l.data, r.data);
        } else {
          SizeOrder(r.data, l.data);
        }
        return if lsize > rsize then sign else -sign;
      }
      var size := lsize;
      var i := 0;
      while i < size
        invariant 0 <= i <= size
        invariant l.data[size - i..size] == r.data[size - i..size]
      {
        var a, b := l.data[size - i - 1], r.data[size - i - 1];
        if a != b {
          if a > b {
            TopPlaceOrder(l.data, r.data, size - i - 1);
          } else {
            TopPlaceOrder(r.data, l.data, size - i - 1);
          }
          return if a > b then 1 else -1;
        }
        assert l.data[size - i - 1..size] == [a] + l.data[size - i..size];
        assert r.data[size - i - 1..size] == [b] + r.data[size - i..size];
        i := i + 1;
      }
      SamePlacesEqual(l.data, r.data);
      return 0;
    }

    /** `operator==`: equal place sequences. */
    static function Equal(a: BigInteger, b: BigInteger): (r: bool)
      requires a.Valid() && b.Valid()
      reads a, b
      ensures r <==> Value(a.data) == Value(b.data)
    {
      CanonicalEqual(a.data, b.data);
      a.data == b.data
    }

    /** `operator!=`. */
    static function NotEqual(a: BigInteger, b: BigInteger): (r: bool)
      requires a.Valid() && b.Valid()
      reads a, b
      ensures r <==> Value(a.data) != Value(b.data)
    {
      CanonicalEqual(a.data, b.data);
      a.data != b.data
    }

    /** `operator<`. */
    static method Less(a: BigInteger, b: BigInteger) returns (r: bool)
      requires a.Valid() && b.Valid()
      ensures r <==> Value(a.data) < Value(b.data)
    {
      var c := Compare(a, b);
      r := c < 0;
    }

    /** `operator>`. */
    static method Greater(a: BigInteger, b: BigInteger) returns (r: bool)
      requires a.Valid() && b.Valid()
      ensures r <==> Value(a.data) > Value(b.data)
    {
      var c := Compare(a, b);
      r := c > 0;
    }

    /** `operator<=`. */
    static method LessEq(a: BigInteger, b: BigInteger) returns (r: bool)
      requires a.Valid() && b.Valid()
      ensures r <==> Value(a.data) <= Value(b.data)
    {
      var c := Compare(a, b);
      r := c <= 0;
    }

    /** `operator>=`. */
    static method GreaterEq(a: BigInteger, b: BigInteger) returns (r: bool)
      requires a.Valid() && b.Valid()
      ensures r <==> Value(a.data) >= Value(b.data)
    {
      var c := Compare(a, b);
      r := c >= 0;
    }

    /** `sign`: -1, 0 or 1. */
    function Sign(): (r: int)
      requires Valid()
      reads this
      ensures r == Order(Value(data), 0)
    {
      ValueRange(data);
      if SignBit(data) then -1
      else if |data| == 1 && data[0] == 0 then 0
      else
        UnsignedAllZeroCanonical(data);
        1
    }
  }

  lemma UnsignedEmpty(s: seq<Place>)
    requires |s| == 0
    ensures Unsigned(s) == 0 && Pow(0) == 1
  {
  }

  /** Pushing the fill of the other sign makes the places read as an unsigned
      number with that sign. */
  lemma PushSignValue(d: seq<Place>, sign: bool)
    requires |d| >= 1 && SignBit(d) != sign
    ensures Value(d + [Fill(sign)]) == Unsigned(d) - (if sign then Pow(|d|) else 0)
  {
    hide Unsigned;
    var s := d + [Fill(sign)];
    UnsignedAppend(d, Fill(sign));
    assert SignBit(s) == sign;
    assert Pow(|s|) == B32 * Pow(|d|);
  }

  /** After the `place_wise` loop, every place of the infinite reading (past the end
      as well) is the operation applied to the operands' places. */
  lemma PlaceWiseAllPlaces(l: seq<Place>, r: seq<Place>, s: seq<Place>, op: BitOp)
    requires |l| >= 1 && |r| >= 1 && |s| == Max(|l|, |r|)
    requires forall j :: 0 <= j < |s| ==> s[j] == Apply(op, GetOrDefault(l, j), GetOrDefault(r, j))
    ensures forall k: nat :: GetOrDefault(s, k) == Apply(op, GetOrDefault(l, k), GetOrDefault(r, k))
  {
    hide Unsigned, Pow, Apply, Bitwise;
    var n := |s|;
    assert SignBit(s) == ApplySign(op, SignBit(l), SignBit(r)) by {
      ApplyTopBit(op, GetOrDefault(l, n - 1), GetOrDefault(r, n - 1));
      FillTopBit(l, n - 1);
      FillTopBit(r, n - 1);
    }
    ApplyFill(op, SignBit(l), SignBit(r));
    forall k: nat
      ensures GetOrDefault(s, k) == Apply(op, GetOrDefault(l, k), GetOrDefault(r, k))
    {
      if k >= n {
        assert GetOrDefault(l, k) == Fill(SignBit(l));
        assert GetOrDefault(r, k) == Fill(SignBit(r));
      }
    }
  }

  /** From the last place on, the top bit of a place is the sign. */
  lemma FillTopBit(s: seq<Place>, k: nat)
    requires 1 <= |s| <= k + 1
    ensures GetOrDefault(s, k) >= HalfB32 <==> SignBit(s)
  {
  }

  /** Equal values have equal places everywhere. */
  lemma SamePlaces(a: seq<Place>, b: seq<Place>)
    requires |a| >= 1 && |b| >= 1 && Value(a) == Value(b)
    ensures forall k: nat :: GetOrDefault(a, k) == GetOrDefault(b, k)
  {
    hide Unsigned, Pow;
    forall k: nat
      ensures GetOrDefault(a, k) == GetOrDefault(b, k)
    {
      ValueDigit(a, k);
      ValueDigit(b, k);
    }
  }

  /** A canonical sequence longer than one place is not zero. */
  lemma UnsignedAllZeroCanonical(s: seq<Place>)
    requires Canonical(s) && !SignBit(s) && !(|s| == 1 && s[0] == 0)
    ensures Value(s) > 0
  {
    if |s| == 1 {
      assert s[..0] == [];
    } else {
      UnsignedSizeValue(s);
      var u := UnsignedSize(s);
      if u == 1 {
        assert Unsigned(s[..1]) == Unsigned(s[..0]) + s[0] * Pow(0);
        assert s[..0] == [];
        assert s[0] >= HalfB32;
      }
    }
  }

  /** One step of the `operator+=` carry loop keeps the running sum. */
  lemma AddLoopStep(d: seq<Place>, lx: seq<Place>, rx: seq<Place>, i: nat,
                    carry: bool, sum: Place, carryOut: bool)
    requires |d| == |lx| == |rx| && i < |d| && d[i] == lx[i]
    requires Unsigned(d[..i]) + (if carry then Pow(i) else 0) == Unsigned(lx[..i]) + Unsigned(rx[..i])
    requires sum + BoolToInt(carryOut) * B32 == lx[i] + rx[i] + BoolToInt(carry)
    ensures Unsigned(d[i := sum][..i + 1]) + (if carryOut then Pow(i + 1) else 0)
      == Unsigned(lx[..i + 1]) + Unsigned(rx[..i + 1])
  {
    hide Unsigned, Pow;
    PowNext(i);
    UnsignedPrefixStep(d[i := sum], i);
    UnsignedPrefixStep(lx, i);
    UnsignedPrefixStep(rx, i);
    CarryStep(sum, BoolToInt(carryOut), BoolToInt(carry), lx[i], rx[i], Pow(i));
    assert d[i := sum][..i] == d[..i];
  }

  /** One step of the `short_multiply` loop keeps the running product. */
  lemma MultiplyLoopStep(d: seq<Place>, a: seq<Place>, i: nat, rhs: Place, carry: Place,
                         productLow: int, productHigh: int, low: Place, lowCarry: int)
    requires |d| == |a| && i < |d| && d[i] == a[i]
    requires Unsigned(d[..i]) + carry * Pow(i) == Unsigned(a[..i]) * rhs
    requires productLow + productHigh * B32 == a[i] * rhs
    requires low + lowCarry * B32 == productLow + carry
    ensures Unsigned(d[i := low][..i + 1]) + (productHigh + lowCarry) * Pow(i + 1) == Unsigned(a[..i + 1]) * rhs
  {
    hide Unsigned, Pow;
    PowNext(i);
    UnsignedPrefixStep(d[i := low], i);
    UnsignedPrefixStep(a, i);
    assert d[i := low][..i] == d[..i];
    MultiplyStep(low, lowCarry, carry, productLow, productHigh, a[i], rhs, Pow(i));
    MulDistrib(rhs, Unsigned(a[..i]), a[i] * Pow(i));
  }

  /** One step of the `short_divide` loop keeps the quotient and remainder of the
      suffix divided so far. */
  /** When the places of a non-negative a read as q * rhs + rem with rem < rhs,
      the quotient places are non-negative too and hold a / rhs. */
  lemma ShortQuotient(a: seq<Place>, q: seq<Place>, rhs: Place, rem: int)
    requires |a| == |q| >= 1 && Value(a) >= 0 && 0 <= rem < rhs
    requires Unsigned(a) == Unsigned(q) * rhs + rem
    ensures Value(q) == Value(a) / rhs && rem == Value(a) % rhs
  {
    hide Unsigned, Pow;
    MulLeRight(1, rhs, Unsigned(q));
    SignBitUnsigned(q);
    SignBitUnsigned(a);
    ValueRange(a);
    DivModUnique(Value(a), rhs, Value(q), rem);
  }

  /** Shifting v * qt left by k places multiplies it by 2^(32 k). */
  lemma ShiftedPlaceMultiple(v: int, qt: int, k: nat)
    ensures Shifted(v * qt, k * 32) == qt * (v * Pow(k))
  {
    hide Pow;
    PowPow2(k);
    assert Shifted(v * qt, k * 32) == (v * qt) * Pow(k);
    MulAssoc(qt, v, Pow(k));
  }

  lemma DivideLoopStep(d: seq<Place>, a: seq<Place>, i: nat, rhs: Place, rem: int, q: Place, newRem: int)
    requires |d| == |a| && i < |d| && d[i] == a[i] && rhs > 0
    requires Unsigned(a[i + 1..]) == Unsigned(d[i + 1..]) * rhs + rem
    requires rem * B32 + a[i] == q * rhs + newRem
    ensures Unsigned(a[i..]) == Unsigned(d[i := q][i..]) * rhs + newRem
  {
    hide Unsigned, Pow;
    UnsignedFront(a[i..]);
    UnsignedFront(d[i := q][i..]);
    assert a[i..][1..] == a[i + 1..];
    assert d[i := q][i..][1..] == d[i + 1..];
    DivideStep(Unsigned(a[i..]), Unsigned(a[i + 1..]), Unsigned(d[i + 1..]), a[i], rem, q, newRem, rhs);
  }

  lemma NegMul(a: int, b: int)
    ensures -((-a) * b) == a * b
  {
  }

  lemma MultiplyStep(low: int, lowCarry: int, carry: int, productLow: int, productHigh: int,
                     x: int, rhs: int, p: int)
    requires low + lowCarry * B32 == productLow + carry
    requires productLow + productHigh * B32 == x * rhs
    ensures low * p + (productHigh + lowCarry) * (B32 * p) == carry * p + (x * p) * rhs
  {
    MulAssoc(lowCarry, B32, p);
    MulAssoc(productHigh, B32, p);
    MulAssoc(x, p, rhs);
    MulDistrib(p, low, lowCarry * B32);
    MulDistrib(p, productLow, carry);
    MulDistrib(p, productLow, productHigh * B32);
    MulDistrib(B32 * p, productHigh, lowCarry);
  }

  lemma DivideStep(whole: int, restOld: int, restNew: int, x: int, rem: int, q: int, newRem: int, rhs: int)
    requires rhs > 0
    requires whole == x + B32 * restOld && restOld == restNew * rhs + rem
    requires rem * B32 + x == q * rhs + newRem
    ensures whole == (q + B32 * restNew) * rhs + newRem
  {
    MulAssoc(B32, restNew, rhs);
    MulDistrib(B32, restNew * rhs, rem);
    MulDistrib(rhs, q, B32 * restNew);
  }

  /** A canonical sequence whose value fits k places has at most k places. */
  lemma CanonicalSizeBound(t: seq<Place>, k: nat)
    requires Canonical(t) && k >= 1 && -HalfPow(k) <= Value(t) < HalfPow(k)
    ensures |t| <= k
  {
    if |t| > k {
      var x := Value(t);
      var s := seq(k, i requires 0 <= i < k => Digit(x, i));
      DigitsValue(s, x);
      LongerNotCanonical(s, t);
    }
  }

  /** The absolute value of an n-place number fits n + 1 places. */
  lemma RightSizeBound(t: seq<Place>, n: nat)
    requires Canonical(t) && n >= 1 && 0 <= Value(t) <= HalfPow(n)
    ensures |t| <= n + 1
  {
    PowHalf(n + 1);
    PowNext(n);
    CanonicalSizeBound(t, n + 1);
  }

  /** One step of the `operator*=` loop: adding `|this| * r_i << 32 i` extends the
      product to the next place of the right operand. */
  lemma ShiftedPlace(m: int, r: seq<Place>, i: nat)
    requires i < |r|
    ensures Shifted(m * r[i], i * 32) == m * Unsigned(r[..i + 1]) - m * Unsigned(r[..i])
  {
    hide Unsigned, Pow;
    PowPow2(i);
    UnsignedPrefixStep(r, i);
    MulAssoc(m, r[i], Pow(i));
    MulDistrib(m, Unsigned(r[..i]), r[i] * Pow(i));
  }

  /** The product of the absolute values, negated when exactly one sign is negative. */
  /** The product of the magnitudes, with the sign the two signs combine to. */
  lemma SignedMagnitude(a: int, b: int, aSign: bool, bSign: bool, sign: bool)
    requires (aSign <==> a < 0) && (bSign <==> b < 0) && sign == (aSign != bSign)
    ensures Abs(a) * Abs(b) >= 0
    ensures (if sign then -(Abs(a) * Abs(b)) else Abs(a) * Abs(b)) == a * b
  {
    SignedProduct(a, b);
  }

  lemma SignedProduct(a: int, b: int)
    ensures ((a < 0) != (b < 0) ==> a * b == -(Abs(a) * Abs(b)))
    ensures ((a < 0) == (b < 0) ==> a * b == Abs(a) * Abs(b))
  {
  }

  /** A one-place non-negative number is its place. */
  lemma OnePlaceValue(s: seq<Place>)
    requires Canonical(s) && Value(s) >= 0 && UnsignedSize(s) == 1
    ensures Value(s) == s[0]
  {
    UnsignedSizeValue(s);
    ValueRange(s);
    assert Unsigned(s[..1]) == Unsigned(s[..0]) + s[0] * Pow(0);
    assert s[..0] == [];
  }

  /** The top place of a number of m places is its quotient by the weight of
      place m - 1. */
  lemma TopPlace(d: int, m: nat)
    requires m >= 1 && 0 <= d < Pow(m)
    ensures Digit(d, m - 1) == d / Pow(m - 1)
  {
    hide Pow;
    PowNext(m - 1);
    DivUpperBound(d, Pow(m - 1), B32);
    DivModUnique(d / Pow(m - 1), B32, 0, d / Pow(m - 1));
    DigitDef(d, m - 1);
  }

  /** A value of at least HalfPow(m) needs more than m places. */
  lemma PlacesForValue(s: seq<Place>, m: nat)
    requires |s| >= 1 && m >= 1 && Value(s) >= HalfPow(m)
    ensures |s| > m
  {
    ValueRange(s);
    if |s| <= m {
      PowMono(|s| - 1, m - 1);
    }
  }

  /** C++ `/` and `%` through the absolute values. */
  lemma TruncParts(a: int, b: int)
    requires b != 0
    ensures TruncDiv(a, b) == if (a < 0) != (b < 0) then -(Abs(a) / Abs(b)) else Abs(a) / Abs(b)
    ensures TruncMod(a, b) == if a < 0 then -(Abs(a) % Abs(b)) else Abs(a) % Abs(b)
  {
    DivModBounds(Abs(a), Abs(b));
  }
}
