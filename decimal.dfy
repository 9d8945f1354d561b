/** The decimal text form of big integers (bigint/big_integer.cpp:147-167 and
    684-701), as functions on mathematical integers: what the string
    constructor computes from any string, and what `to_string` produces. */
module Decimal {
  import opened Arith

  datatype Option<T> = None | Some(value: T)

  /** A `std::string` holds bytes: the model reads each char as a byte. */
  predicate IsByteString(s: string)
  {
    forall i :: 0 <= i < |s| ==> s[i] as int < 0x100
  }

  predicate IsDigit(c: char)
  {
    '0' <= c <= '9'
  }

  predicate AllDigits(s: string)
  {
    forall i :: 0 <= i < |s| ==> IsDigit(s[i])
  }

  /** `*it - '0'`: the byte, read as a signed `char`, minus the code of '0'.
      Nothing rejects characters that are not digits. */
  function CharValue(c: char): (v: int)
    requires c as int < 0x100
    ensures -0xB0 <= v < 0x50
    ensures IsDigit(c) ==> 0 <= v < 10
  {
    (if c as int < 0x80 then c as int else c as int - 0x100) - '0' as int
  }

  /** The loop of the string constructor: multiply by ten, add the next character's
      value. */
  function DecimalValue(s: string): int
    requires IsByteString(s)
  {
    if s == [] then 0 else DecimalValue(s[..|s| - 1]) * 10 + CharValue(s[|s| - 1])
  }

  /** The string constructor: an error on "" and "-"; otherwise the sign is set by
      `revert_sign(is_negated)`, which makes the result non-negative without a
      leading '-' and non-positive with one, whatever the loop computed. */
  function Parse(s: string): (r: Option<int>)
    requires IsByteString(s)
    ensures r.None? <==> s == "" || s == "-"
  {
    if s == "" || s == "-" then None
    else if s[0] == '-' then
      var v := DecimalValue(s[1..]);
      Some(if v < 0 then v else -v)
    else
      var v := DecimalValue(s);
      Some(if v < 0 then -v else v)
  }

  function DigitChar(d: int): (c: char)
    requires 0 <= d < 10
    ensures IsDigit(c) && CharValue(c) == d
  {
    ('0' as int + d) as char
  }

  /** The digits of n, most significant first, without leading zeros (none at all
      for zero). */
  function DigitsOf(n: nat): (s: string)
    ensures s == [] <==> n == 0
  {
    if n == 0 then [] else DigitsOf(n / 10) + [DigitChar(n % 10)]
  }

  /** Dividing a positive number by ten splits off its last digit. */
  lemma DigitsOfStep(n: nat, q: nat, r: nat)
    requires n > 0 && q == n / 10 && r == n % 10
    ensures DigitsOf(n) == DigitsOf(q) + [DigitChar(r)]
  {
  }

  /** `to_string`: "0" for zero, otherwise the digits of the absolute value, with a
      leading '-' for a negative value. */
  function Format(v: int): string
  {
    var digits := if v == 0 then "0" else DigitsOf(if v < 0 then -v else v);
    if v < 0 then "-" + digits else digits
  }

  /** `std::string(v.rbegin(), v.rend())`: the characters in reverse order. */
  function Reversed(s: string): (r: string)
    ensures |r| == |s|
  {
    if s == [] then [] else Reversed(s[1..]) + [s[0]]
  }

  lemma {:induction false} ReversedAppend(s: string, c: char)
    ensures Reversed(s + [c]) == [c] + Reversed(s)
  {
    if s != [] {
      assert (s + [c])[1..] == s[1..] + [c];
      ReversedAppend(s[1..], c);
    }
  }

  /** A piece of a byte string is a byte string. */
  lemma ByteSlice(s: string, i: nat, j: nat)
    requires IsByteString(s) && i <= j <= |s|
    ensures IsByteString(s[i..j])
  {
    forall k | 0 <= k < j - i ensures s[i..j][k] as int < 0x100 {
      assert s[i..j][k] == s[i + k];
    }
  }

  /** On "-?[0-9]+" the constructor reads the number the digits write, with the
      sign of the '-'. */
  lemma ParseDigits(s: string)
    requires |s| > 0 && AllDigits(s)
    ensures IsByteString(s) && IsByteString("-" + s)
    ensures 0 <= DecimalValue(s) < Pow10(|s|)
    ensures Parse(s) == Some(DecimalValue(s)) && Parse("-" + s) == Some(-DecimalValue(s))
  {
    DigitsValue(s);
    assert ("-" + s)[1..] == s;
  }

  /** Text the string constructor was meant to accept: an optional '-' and at
      least one digit. */
  predicate IsDecimal(s: string)
  {
    if |s| > 0 && s[0] == '-' then |s| > 1 && AllDigits(s[1..]) else |s| > 0 && AllDigits(s)
  }

  /** The constructor accepts characters that are not digits: "1a" reads as
      10 + ('a' - '0') = 59. */
  lemma NonDigitAccepted()
    ensures IsByteString("1a") && !IsDecimal("1a") && Parse("1a") == Some(59)
  {
    assert !IsDigit("1a"[1]);
    assert "1a"[..1] == "1";
    assert "1"[..0] == "";
    assert DecimalValue("1") == 1;
    assert CharValue('a') == 49;
  }

  /** The constructor as evidently intended: an error on anything but "-?[0-9]+". */
  function ParseStrict(s: string): (r: Option<int>)
    ensures r.Some? <==> IsDecimal(s)
  {
    if !IsDecimal(s) then None
    else if s[0] == '-' then
      DigitsValue(s[1..]);
      Some(-DecimalValue(s[1..]))
    else
      DigitsValue(s);
      Some(DecimalValue(s))
  }

  /** The strict reading agrees with the constructor wherever it accepts, and
      reads back every formatted value. */
  lemma ParseStrictAgrees(s: string)
    requires IsDecimal(s)
    ensures IsByteString(s) && ParseStrict(s) == Parse(s)
  {
    if s[0] == '-' {
      ParseDigits(s[1..]);
      assert "-" + s[1..] == s;
    } else {
      ParseDigits(s);
    }
  }

  lemma FormatParseStrict(v: int)
    ensures ParseStrict(Format(v)) == Some(v)
  {
    var n := if v < 0 then -v else v;
    DigitsOfValue(n);
    var digits := if v == 0 then "0" else DigitsOf(n);
    assert AllDigits(digits) && |digits| > 0;
    if v < 0 {
      assert Format(v)[1..] == digits;
    }
    ParseStrictAgrees(Format(v));
    FormatParse(v);
  }

  /** `Format` as the sign followed by the digits of the absolute value. */
  lemma FormatSign(v: int, digits: string)
    requires digits == if v == 0 then "0" else DigitsOf(if v < 0 then -v else v)
    ensures Format(v) == if v < 0 then "-" + digits else digits
  {
  }

  /** The shortest decimal form: an optional '-', then digits without a leading
      zero, and no "-0". */
  predicate IsCanonicalDecimal(s: string)
  {
    if |s| > 0 && s[0] == '-' then
      |s| > 1 && AllDigits(s[1..]) && s[1] != '0'
    else
      |s| > 0 && AllDigits(s) && (s[0] != '0' || s == "0")
  }

  function Pow10(n: nat): (p: int)
    ensures p >= 1
  {
    if n == 0 then 1 else 10 * Pow10(n - 1)
  }

  /** Read from digits only, the loop gives the number those digits write, below
      10^|s|, and at least 10^(|s|-1) when the first digit is not zero. */
  lemma {:induction false} DigitsValue(s: string)
    requires AllDigits(s)
    ensures IsByteString(s)
    ensures 0 <= DecimalValue(s) < Pow10(|s|)
    ensures |s| > 0 && s[0] != '0' ==> Pow10(|s| - 1) <= DecimalValue(s)
  {
    if s != [] {
      var t := s[..|s| - 1];
      assert AllDigits(t) by {
        forall i | 0 <= i < |t| ensures IsDigit(t[i]) {
          assert t[i] == s[i];
        }
      }
      DigitsValue(t);
      if |t| > 0 {
        assert t[0] == s[0];
      }
    }
  }

  /** The digits written by `DigitsOf` read back as n. */
  lemma {:induction false} DigitsOfValue(n: nat)
    ensures AllDigits(DigitsOf(n)) && IsByteString(DigitsOf(n))
    ensures DecimalValue(DigitsOf(n)) == n
    ensures n > 0 ==> |DigitsOf(n)| > 0 && DigitsOf(n)[0] != '0'
  {
    if n > 0 {
      var s := DigitsOf(n);
      DigitsOfValue(n / 10);
      assert s[..|s| - 1] == DigitsOf(n / 10);
      if n / 10 == 0 {
        assert s == [DigitChar(n % 10)];
      } else {
        assert s[0] == DigitsOf(n / 10)[0];
      }
    }
  }

  /** Reading the formatted text gives the value back. */
  lemma FormatParse(v: int)
    ensures IsByteString(Format(v)) && Parse(Format(v)) == Some(v)
  {
    var n := if v < 0 then -v else v;
    DigitsOfValue(n);
    var digits := if v == 0 then "0" else DigitsOf(n);
    assert AllDigits(digits) && |digits| > 0 && DecimalValue(digits) == n by {
      if v == 0 {
        assert digits[..0] == [];
      }
    }
    FormatSign(v, digits);
    hide DigitsOf, DecimalValue, Format, Parse;
    ParseDigits(digits);
  }

  /** Formatting is also the inverse of reading on the shortest decimal forms, so
      `Format` writes every value in exactly one way. */
  lemma ParseFormat(s: string)
    requires IsCanonicalDecimal(s)
    ensures IsByteString(s) && Parse(s).Some? && Format(Parse(s).value) == s
  {
    if s[0] == '-' {
      var t := s[1..];
      assert s == "-" + t;
      CanonicalDigits(t);
      ParseDigits(t);
    } else if s != "0" {
      CanonicalDigits(s);
      ParseDigits(s);
    } else {
      assert s[..0] == [];
    }
  }

  /** Digits without a leading zero write a positive value that `Format` writes
      back, with or without a '-'. */
  lemma CanonicalDigits(t: string)
    requires |t| > 0 && AllDigits(t) && t[0] != '0'
    ensures IsByteString(t) && DecimalValue(t) > 0
    ensures Format(DecimalValue(t)) == t && Format(-DecimalValue(t)) == "-" + t
  {
    hide DigitsOf, DecimalValue, Pow10, Format, IsByteString, AllDigits;
    DigitsValue(t);
    DigitsOfCanonical(t);
    var v := DecimalValue(t);
    FormatSign(v, t);
    FormatSign(-v, t);
  }

  lemma {:induction false} DigitsOfCanonical(s: string)
    requires AllDigits(s) && (s == [] || s[0] != '0')
    ensures IsByteString(s) && DecimalValue(s) >= 0 && DigitsOf(DecimalValue(s)) == s
  {
    DigitsValue(s);
    if s != [] {
      var t := s[..|s| - 1];
      var c := s[|s| - 1];
      assert AllDigits(t) by {
        forall i | 0 <= i < |t| ensures IsDigit(t[i]) {
          assert t[i] == s[i];
        }
      }
      if t != [] {
        assert t[0] == s[0];
      }
      DigitsOfCanonical(t);
      DigitsValue(t);
      var n := DecimalValue(s);
      assert n > 0 by {
        assert Pow10(|s| - 1) <= n;
      }
      DivAddMul(CharValue(c), DecimalValue(t), 10);
      DivModUnique(CharValue(c), 10, 0, CharValue(c));
      assert n / 10 == DecimalValue(t) && n % 10 == CharValue(c);
      assert DigitChar(CharValue(c)) == c;
      assert s == t + [c];
    }
  }
}
