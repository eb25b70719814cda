/** What a numeral is, by a table of digits and the weights of their places. */
module Numerals {
  import opened Machine
  import opened Numbers
  import opened AddressComponent

  const LOWER: string := "0123456789abcdef"
  const UPPER: string := "0123456789ABCDEF"

  // ----- Digits -----

  /** Each digit is the character at its place in the table, and printed as the lower-case one. */
  lemma DigitTable(d: nat)
    requires d < 16
    ensures ConvertDigit(16, LOWER[d]) == ConvertDigit(16, UPPER[d]) == d
    ensures DigitFor(d) == LOWER[d] && ToUpper(LOWER[d]) == UPPER[d]
  {
    LowerTable(d);
    UpperTable(d);
  }

  lemma LowerTable(d: nat)
    requires d < 16
    ensures LOWER[d] == if d < 10 then '0' + d as char else 'a' + (d - 10) as char
  {
  }

  lemma UpperTable(d: nat)
    requires d < 16
    ensures UPPER[d] == if d < 10 then '0' + d as char else 'A' + (d - 10) as char
  {
  }

  /** In any base, exactly the first characters of the tables are digits. */
  lemma DigitsOfBase(base: Radix, c: char, d: int)
    ensures ConvertDigit(base, c) == d && d >= 0 <==> 0 <= d < base && (c == LOWER[d] || c == UPPER[d])
  {
    if 0 <= d < 16 {
      LowerTable(d);
      UpperTable(d);
    }
  }

  // ----- Numerals -----

  function Power(base: nat, k: nat): nat {
    if k == 0 then 1 else base * Power(base, k - 1)
  }

  /** Each digit times the weight of its place. */
  function Weighted(base: nat, digits: seq<nat>): nat {
    if digits == [] then 0 else digits[0] * Power(base, |digits| - 1) + Weighted(base, digits[1..])
  }

  /** t writes these digits, in either case. */
  predicate Writes(base: nat, t: string, digits: seq<nat>)
    requires base <= 16
  {
    && |digits| == |t|
    && forall k :: 0 <= k < |t| ==> digits[k] < base && (t[k] == LOWER[digits[k]] || t[k] == UPPER[digits[k]])
  }

  /** t is a numeral with the value v. */
  ghost predicate Numeral(base: nat, t: string, v: int)
    requires base <= 16
  {
    t != "" && exists digits :: Writes(base, t, digits) && Weighted(base, digits) == v
  }

  function DigitsOf(base: Radix, t: string): (digits: seq<nat>)
    requires AllDigits(base, t)
    ensures |digits| == |t|
  {
    seq(|t|, k requires 0 <= k < |t| => ConvertDigit(base, t[k]))
  }

  lemma TimesIs(base: Radix, v: nat)
    ensures Times(base, v) == base * v
  {
  }

  lemma {:induction false} WeightedSnoc(base: nat, digits: seq<nat>, last: nat)
    ensures Weighted(base, digits + [last]) == base * Weighted(base, digits) + last
  {
    if digits == [] {
      assert ([] + [last])[1..] == [];
      assert Power(base, 0) == 1;
    } else {
      WeightedSnoc(base, digits[1..], last);
      assert (digits + [last])[1..] == digits[1..] + [last];
      Factor(base, digits[0], Power(base, |digits| - 1), Weighted(base, digits[1..]), last);
    }
  }

  lemma Factor(base: nat, d: nat, p: nat, w: nat, last: nat)
    ensures d * (base * p) + (base * w + last) == base * (d * p + w) + last
  {
    assert d * (base * p) == base * (d * p);
  }

  /** Horner's scheme computes the weighted sum. */
  lemma {:induction false} PositionalIsWeighted(base: Radix, t: string)
    requires AllDigits(base, t)
    ensures Positional(base, t) == Weighted(base, DigitsOf(base, t))
  {
    hide ConvertDigit, Times, Weighted, IsValidDigit;
    if t == "" {
      NoDigits(base);
    } else {
      var front, c := t[..|t| - 1], t[|t| - 1];
      LastDigit(base, t);
      PositionalIsWeighted(base, front);
      WeightedSnoc(base, DigitsOf(base, front), ConvertDigit(base, c));
      TimesIs(base, Positional(base, front));
      assert DigitsOf(base, t) == DigitsOf(base, front) + [ConvertDigit(base, c)];
    }
  }

  lemma NoDigits(base: Radix)
    ensures Weighted(base, DigitsOf(base, "")) == 0
  {
  }

  lemma WritesOnlyDigits(base: Radix, t: string, digits: seq<nat>)
    requires Writes(base, t, digits)
    ensures AllDigits(base, t) && digits == DigitsOf(base, t)
  {
    hide ConvertDigit, IsValidDigit;
    forall k | 0 <= k < |t| ensures IsValidDigit(base, t[k]) && ConvertDigit(base, t[k]) == digits[k] {
      DigitsOfBase(base, t[k], digits[k]);
    }
  }

  lemma DigitsAreWritten(base: Radix, t: string)
    requires AllDigits(base, t)
    ensures Writes(base, t, DigitsOf(base, t))
  {
    hide ConvertDigit, IsValidDigit;
    forall k | 0 <= k < |t|
      ensures var d := DigitsOf(base, t)[k]; d < base && (t[k] == LOWER[d] || t[k] == UPPER[d])
    {
      assert IsValidDigit(base, t[k]);
      DigitsOfBase(base, t[k], ConvertDigit(base, t[k]));
    }
  }

  lemma NumeralIs(base: Radix, t: string, v: int)
    ensures Numeral(base, t, v) <==> t != "" && AllDigits(base, t) && Positional(base, t) == v
  {
    hide AllDigits, Positional, Writes, Weighted, DigitsOf;
    forall digits | Writes(base, t, digits)
      ensures AllDigits(base, t) && Weighted(base, digits) == Positional(base, t)
    {
      WritesOnlyDigits(base, t, digits);
      PositionalIsWeighted(base, t);
    }
    if AllDigits(base, t) {
      DigitsAreWritten(base, t);
      PositionalIsWeighted(base, t);
    }
  }

  /** A component is read exactly as the numeral that it is, if that keeps the limits, and refused otherwise. */
  lemma ComponentIsNumeral(base: Radix, maxValue: uint32, maxLength: nat, t: string, v: int)
    ensures Component(base, maxValue, maxLength, t) == v && v >= 0
            <==> Numeral(base, t, v) && v <= maxValue && (maxLength > 0 ==> |t| <= maxLength)
    ensures Component(base, maxValue, maxLength, t) >= -1
  {
    hide Numeral, AllDigits, Positional;
    NumeralIs(base, t, v);
  }
}
