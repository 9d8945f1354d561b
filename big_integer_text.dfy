/** The string constructor and `to_string` of bigint/big_integer.cpp, run on the
    big-integer class and proved against the decimal functions of `Decimal`. */
module BigIntegerText {
  import opened TwosComplement
  import opened BigIntegers
  import Decimal

  /** `big_integer(const std::string &)`: an error (the source throws) on "" and "-";
      otherwise ten times the value so far plus each character's value, then the
      sign set by a leading '-'. */
  method FromString(str: string) returns (r: Option<BigInteger>)
    requires Decimal.IsByteString(str)
    ensures r.None? <==> Decimal.Parse(str).None?
    ensures r.Some? ==> fresh(r.value) && r.value.Valid() && Value(r.value.data) == Decimal.Parse(str).value
  {
    hide Unsigned, Pow;
    var start := 0;
    var negated := false;
    if |str| > 0 && str[0] == '-' {
      negated := true;
      start := 1;
    }
    if start == |str| {
      return None;
    }
    var b := new BigInteger();
    var i := start;
    Decimal.ByteSlice(str, start, i);
    assert str[start..i] == [] && Decimal.DecimalValue(str[start..i]) == 0;
    hide Value, Decimal.DecimalValue, Decimal.Parse;
    while i < |str|
      invariant start <= i <= |str| && fresh(b)
      invariant Decimal.IsByteString(str[start..i])
      invariant b.Valid() && Value(b.data) == Decimal.DecimalValue(str[start..i])
    {
      b.ShortMultiply(10);
      var digit := new BigInteger.FromInt(Decimal.CharValue(str[i]));
      b.AddAssign(digit);
      NextDigit(str, start, i);
      i := i + 1;
    }
    assert str[start..i] == str[start..];
    ParsedValue(str, start, negated);
    ValueRange(b.data);
    b.RevertSign(negated);
    r := Some(b);
  }

  /** What `Decimal.Parse` gives once the sign is split off and the rest is read. */
  lemma ParsedValue(str: string, start: nat, negated: bool)
    requires Decimal.IsByteString(str) && start < |str|
    requires negated == (str[0] == '-') && start == (if negated then 1 else 0)
    ensures Decimal.IsByteString(str[start..])
    ensures Decimal.Parse(str).Some?
    ensures var v := Decimal.DecimalValue(str[start..]);
      Decimal.Parse(str).value == if (v < 0) == negated then v else -v
  {
    Decimal.ByteSlice(str, start, |str|);
    assert str[start..|str|] == str[start..];
  }

  /** One more character read: ten times the value so far plus its value. */
  lemma NextDigit(str: string, start: nat, i: nat)
    requires Decimal.IsByteString(str) && start <= i < |str|
    ensures Decimal.IsByteString(str[start..i]) && Decimal.IsByteString(str[start..i + 1])
    ensures Decimal.DecimalValue(str[start..i + 1]) ==
      Decimal.DecimalValue(str[start..i]) * 10 + Decimal.CharValue(str[i])
  {
    Decimal.ByteSlice(str, start, i);
    Decimal.ByteSlice(str, start, i + 1);
    assert str[start..i + 1][..i - start] == str[start..i];
  }

  /** `to_string`: the digits of the absolute value, then a '-' for a negative
      value, read backwards. */
  method ToString(a: BigInteger) returns (s: string)
    requires a.Valid()
    ensures s == Decimal.Format(Value(a.data))
  {
    hide Unsigned, Pow, Decimal.Format;
    var c := new BigInteger.Copy(a);
    var sgn := c.MakeAbsolute();
    var reverse := ReversedDigits(c);
    ghost var digits := Decimal.Reversed(reverse);
    if sgn {
      Decimal.ReversedAppend(reverse, '-');
      reverse := reverse + ['-'];
    }
    s := Decimal.Reversed(reverse);
    Decimal.FormatSign(Value(a.data), digits);
  }

  /** The digit loop of `to_string`: "0" for zero, otherwise `short_divide(10)`
      until the value is zero, pushing each remainder's digit. */
  method ReversedDigits(c: BigInteger) returns (reverse: string)
    requires c.Valid() && Value(c.data) >= 0
    modifies c
    ensures Decimal.Reversed(reverse) == if old(Value(c.data)) == 0 then "0" else Decimal.DigitsOf(old(Value(c.data)))
  {
    hide Unsigned, Pow, Decimal.DigitsOf;
    ghost var n := Value(c.data);
    reverse := [];
    var zero := new BigInteger.FromInt(0);
    if BigInteger.Equal(c, zero) {
      reverse := reverse + ['0'];
    }
    while BigInteger.NotEqual(c, zero)
      invariant c.Valid() && zero.Valid() && Value(zero.data) == 0 && Value(c.data) >= 0
      invariant (if n == 0 then "0" else Decimal.DigitsOf(n)) == Decimal.DigitsOf(Value(c.data)) + Decimal.Reversed(reverse)
      decreases Value(c.data)
    {
      ghost var before := Value(c.data);
      var rem := c.ShortDivide(10);
      Decimal.ReversedAppend(reverse, Decimal.DigitChar(rem));
      reverse := reverse + [Decimal.DigitChar(rem)];
      Decimal.DigitsOfStep(before, Value(c.data), rem);
    }
  }
}
