/**
 Decimal text of integers, as `strconv` produces and reads it: `Itoa` and `FormatInt` write a
 number without leading zeros, `ParseInt` in base 10 reads an optional sign followed by digits
 and refuses anything outside the 64-bit range.
 */
module Decimal {
  import opened Wrappers

  const INT64_MAX := 0x7fff_ffff_ffff_ffff
  const INT64_MIN := -0x8000_0000_0000_0000

  predicate IsDigit(c: char) {
    '0' <= c <= '9'
  }

  predicate AllDigits(s: string) {
    forall i :: 0 <= i < |s| ==> IsDigit(s[i])
  }

  function DigitChar(d: nat): (c: char)
    requires d < 10
    ensures IsDigit(c) && DigitValue(c) == d
  {
    '0' + d as char
  }

  function DigitValue(c: char): nat
    requires IsDigit(c)
  {
    (c - '0') as int
  }

  /** The ten digits stand for 0 to 9 in the order of their characters. */
  lemma DigitsGrow(c: char, d: char)
    requires IsDigit(c) && IsDigit(d)
    ensures DigitValue(c) < 10 && (c < d <==> DigitValue(c) < DigitValue(d))
  {
  }

  /** The decimal text of a natural number. */
  function Itoa(n: nat): (s: string)
    ensures s != [] && AllDigits(s)
  {
    if n < 10 then [DigitChar(n)] else Itoa(n / 10) + [DigitChar(n % 10)]
  }

  /** The number a digit string denotes; the empty string denotes zero. */
  function Value(s: string): nat
    requires AllDigits(s)
  {
    if s == [] then 0 else 10 * Value(s[..|s| - 1]) + DigitValue(s[|s| - 1])
  }

  lemma {:induction false} ValueOfItoa(n: nat)
    ensures Value(Itoa(n)) == n
  {
    if n >= 10 {
      ValueOfItoa(n / 10);
      assert Itoa(n)[..|Itoa(n)| - 1] == Itoa(n / 10);
    } else {
      assert Value([]) == 0;
      assert [DigitChar(n)][..0] == [];
    }
  }

  /** Writing a further digit after a positive number multiplies it by ten and adds the digit. */
  lemma ItoaAppend(n: nat, d: nat)
    requires n > 0 && d < 10
    ensures Itoa(10 * n + d) == Itoa(n) + [DigitChar(d)]
  {
  }

  function Pow10(n: nat): (p: nat)
    ensures p >= 1 && (n >= 1 ==> p >= 10)
  {
    if n == 0 then 1 else 10 * Pow10(n - 1)
  }

  /** No number is written with a leading zero. */
  lemma {:induction false} NoLeadingZero(n: nat)
    requires n > 0
    ensures Itoa(n)[0] != '0'
  {
    if n >= 10 {
      NoLeadingZero(n / 10);
    } else {
      assert DigitValue(Itoa(n)[0]) == n;
    }
  }

  /** The number written as `n` followed by the digits `u`. */
  function Extended(n: nat, u: string): nat
    requires AllDigits(u)
  {
    if u == [] then n else 10 * Extended(n, u[..|u| - 1]) + DigitValue(u[|u| - 1])
  }

  lemma {:induction false} ItoaExtended(n: nat, u: string)
    requires n > 0 && AllDigits(u)
    ensures Extended(n, u) > 0 && Itoa(n) + u == Itoa(Extended(n, u))
    decreases |u|
  {
    if u == [] {
      assert Itoa(n) + u == Itoa(n);
    } else {
      var u0, c := u[..|u| - 1], u[|u| - 1];
      ItoaExtended(n, u0);
      ItoaAppend(Extended(n, u0), DigitValue(c));
      assert Itoa(n) + u == (Itoa(n) + u0) + [c];
    }
  }

  lemma {:induction false} ExtendedBounds(n: nat, u: string)
    requires n > 0 && AllDigits(u)
    ensures Extended(1, u) == Pow10(|u|) + Value(u) <= Extended(n, u)
    decreases |u|
  {
    if u != [] {
      ExtendedBounds(n, u[..|u| - 1]);
    }
  }

  lemma NotBehindZero(j: nat, u: string)
    requires u != []
    ensures Itoa(j) != "0" + u
  {
    if j > 0 {
      NoLeadingZero(j);
    }
  }

  /**
   A number that ends in the digits `u` with some number in front of them is at least the one
   with a single 1 in front, because what is in front does not start with 0.
   */
  lemma SmallestExtension(i: nat, u: string, j: nat)
    requires u != [] && AllDigits(u) && Itoa(i) + u == Itoa(j)
    ensures j >= Pow10(|u|) + Value(u)
  {
    NotBehindZero(j, u);
    assert i > 0;
    ItoaExtended(i, u);
    ValueOfItoa(j);
    ValueOfItoa(Extended(i, u));
    ExtendedBounds(i, u);
  }

  /** `strconv.ParseInt(s, 10, 64)`: the sign, then at least one digit, then the range check. */
  function ParseInt(s: string): Option<int> {
    var negative := s != [] && s[0] == '-';
    var digits := if s != [] && (s[0] == '-' || s[0] == '+') then s[1..] else s;
    if digits == [] || !AllDigits(digits) then None
    else
      var v: int := if negative then 0 - Value(digits) else Value(digits);
      if INT64_MIN <= v <= INT64_MAX then Some(v) else None
  }

  predicate SignedDigits(s: string) {
    s != [] && AllDigits(s[1..]) && (IsDigit(s[0]) || (s[0] in "+-" && |s| >= 2))
  }

  lemma ReadsUnsigned(t: string)
    requires t != [] && AllDigits(t)
    ensures ParseInt(t) == if Value(t) <= INT64_MAX then Some(Value(t)) else None
  {
    assert IsDigit(t[0]);
  }

  lemma ReadsSigned(t: string)
    requires t != [] && AllDigits(t)
    ensures ParseInt("+" + t) == if Value(t) <= INT64_MAX then Some(Value(t)) else None
    ensures ParseInt("-" + t) == if 0 - Value(t) >= INT64_MIN then Some(0 - Value(t)) else None
  {
    assert ("+" + t)[1..] == t && ("-" + t)[1..] == t;
  }

  lemma ReadsNothingElse(s: string)
    requires ParseInt(s).Some?
    ensures SignedDigits(s)
  {
    var signed := s[0] == '-' || s[0] == '+';
    var digits := if signed then s[1..] else s;
    assert digits != [] && AllDigits(digits);
    assert !signed ==> IsDigit(s[0]);
  }

  /**
   What is read and as what: digits, alone or behind one sign, as their value, if that is within
   64 bits; leading zeros do not matter, and nothing else is read.
   */
  lemma ReadsExactly(s: string, t: string)
    requires t != [] && AllDigits(t)
    ensures ParseInt(t) == ParseInt("+" + t) == if Value(t) <= INT64_MAX then Some(Value(t)) else None
    ensures ParseInt("-" + t) == if 0 - Value(t) >= INT64_MIN then Some(0 - Value(t)) else None
    ensures ParseInt(s).Some? ==> SignedDigits(s)
  {
    ReadsUnsigned(t);
    ReadsSigned(t);
    if ParseInt(s).Some? {
      ReadsNothingElse(s);
    }
  }

  lemma ParseFormatted(n: nat)
    requires n <= INT64_MAX
    ensures ParseInt(Itoa(n)) == Some(n)
  {
    ValueOfItoa(n);
    assert IsDigit(Itoa(n)[0]);
  }
}
