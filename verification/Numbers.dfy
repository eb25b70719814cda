/** Numbers and their digits in the bases 8, 10 and 16. */
module Numbers {

  type Radix = b: int | b == 8 || b == 10 || b == 16 witness 10

  predicate IsDigit(c: char) { '0' <= c <= '9' }

  predicate IsXDigit(c: char) { IsDigit(c) || 'a' <= c <= 'f' || 'A' <= c <= 'F' }

  function ToUpper(c: char): char {
    if 'a' <= c <= 'z' then (c as int - 0x20) as char else c
  }

  predicate IsValidDigit(base: Radix, c: char) {
    if base == 8 then '0' <= c <= '7' else if base == 10 then IsDigit(c) else IsXDigit(c)
  }

  /** -1 for a character that is no digit of the base. */
  function ConvertDigit(base: Radix, c: char): (d: int)
    ensures -1 <= d < base
    ensures d >= 0 <==> IsValidDigit(base, c)
  {
    if !IsValidDigit(base, c) then -1
    else if IsDigit(c) then c as int - '0' as int
    else if 'A' <= c <= 'F' then c as int - 'A' as int + 10
    else c as int - 'a' as int + 10
  }

  predicate AllDigits(base: Radix, t: string) {
    forall i :: 0 <= i < |t| ==> IsValidDigit(base, t[i])
  }

  /** base * v. */
  function Times(base: Radix, v: nat): nat {
    if base == 8 then 8 * v else if base == 10 then 10 * v else 16 * v
  }

  /** The number that a digit string denotes in positional notation. */
  function Positional(base: Radix, t: string): nat
    requires AllDigits(base, t)
  {
    if t == [] then 0
    else Times(base, Positional(base, t[..|t| - 1])) + ConvertDigit(base, t[|t| - 1])
  }

  // ----- Reading -----

  lemma {:induction false} PrefixIsSmaller(base: Radix, t: string, k: nat)
    requires AllDigits(base, t) && k <= |t|
    ensures Positional(base, t[..k]) <= Positional(base, t)
  {
    if k < |t| {
      PrefixIsSmaller(base, t[..|t| - 1], k);
      assert t[..|t| - 1][..k] == t[..k];
    } else {
      assert t[..k] == t;
    }
  }

  lemma EmptyValue(base: Radix)
    ensures Positional(base, []) == 0
  {
  }

  lemma NextDigit(base: Radix, t: string, k: nat)
    requires k < |t| && AllDigits(base, t[..k]) && IsValidDigit(base, t[k])
    ensures AllDigits(base, t[..k + 1])
    ensures Positional(base, t[..k + 1]) == Times(base, Positional(base, t[..k])) + ConvertDigit(base, t[k])
  {
    assert t[..k + 1][..k] == t[..k];
    forall i | 0 <= i <= k ensures IsValidDigit(base, t[i]) {
      if i < k {
        assert t[..k][i] == t[i];
      }
    }
  }

  // ----- Printing -----

  lemma OneDigit(base: Radix, t: string)
    requires |t| == 1 && AllDigits(base, t)
    ensures Positional(base, t) == ConvertDigit(base, t[0])
  {
    assert t[..1] == t && t[..0] == [];
    NextDigit(base, t, 0);
  }

  function DigitFor(d: nat): char
    requires d < 16
  {
    if d < 10 then ('0' as int + d) as char else ('a' as int + d - 10) as char
  }

  lemma DigitForIsDigit(base: Radix, d: nat)
    requires d < base
    ensures var c := DigitFor(d);
            IsValidDigit(base, c) && ConvertDigit(base, c) == d && (c == '0' <==> d == 0)
  {
  }

  lemma Division(base: Radix, v: nat)
    ensures Times(base, v / base) + v % base == v && (v >= base ==> 0 < v / base < v)
  {
    if base == 8 {
    } else if base == 10 {
    }
  }

  lemma AppendDigit(base: Radix, front: string, c: char)
    requires AllDigits(base, front) && IsValidDigit(base, c)
    ensures AllDigits(base, front + [c])
    ensures Positional(base, front + [c]) == Times(base, Positional(base, front)) + ConvertDigit(base, c)
  {
    var t := front + [c];
    assert t[..|front|] == front && t[..|front| + 1] == t;
    NextDigit(base, t, |front|);
  }

  /** The shortest digits of a number in a base. */
  function PrintIn(base: Radix, v: nat): (t: string)
    ensures t != "" && AllDigits(base, t) && Positional(base, t) == v
    ensures t[0] == '0' ==> t == "0" && v == 0
  {
    Division(base, v);
    DigitForIsDigit(base, v % base);
    if v < base then
      DigitForIsDigit(base, v);
      OneDigit(base, [DigitFor(v)]);
      [DigitFor(v)]
    else
      var front := PrintIn(base, v / base);
      AppendDigit(base, front, DigitFor(v % base));
      front + [DigitFor(v % base)]
  }

  lemma {:induction false} ZeroKeepsValue(base: Radix, t: string)
    requires AllDigits(base, t)
    ensures AllDigits(base, "0" + t) && Positional(base, "0" + t) == Positional(base, t)
  {
    hide Positional, AllDigits, ConvertDigit, IsValidDigit, Times;
    if t == "" {
      ZeroDigit(base);
      assert "0" + t == "0";
    } else {
      var front, c := t[..|t| - 1], t[|t| - 1];
      LastDigit(base, t);
      ZeroKeepsValue(base, front);
      AppendDigit(base, "0" + front, c);
      AppendDigit(base, front, c);
      assert front + [c] == t && "0" + front + [c] == "0" + t;
    }
  }

  lemma ZeroDigit(base: Radix)
    ensures AllDigits(base, "0") && AllDigits(base, "") && Positional(base, "0") == Positional(base, "") == 0
  {
    OneDigit(base, "0");
  }

  lemma LastDigit(base: Radix, t: string)
    requires t != "" && AllDigits(base, t)
    ensures AllDigits(base, t[..|t| - 1]) && IsValidDigit(base, t[|t| - 1])
  {
  }

  lemma OneMoreDigit(base: Radix, v: nat)
    ensures |PrintIn(base, v)| == if v < base then 1 else |PrintIn(base, v / base)| + 1
  {
    hide DigitFor;
  }

  /** Decimal digits without a leading zero are the printed form of their value. */
  lemma {:induction false} DigitsArePrinted(t: string)
    requires t != "" && AllDigits(10, t) && (t[0] == '0' ==> t == "0")
    ensures t == PrintIn(10, Positional(10, t))
  {
    hide Positional, AllDigits, PrintIn, DigitFor, ConvertDigit, Times;
    var front, c := t[..|t| - 1], t[|t| - 1];
    LastDigit(10, t);
    SameDigit(c);
    if |t| == 1 {
      OneDigit(10, t);
      PrintMore(0, ConvertDigit(10, c));
    } else {
      DigitsArePrinted(front);
      AppendDigit(10, front, c);
      assert front + [c] == t;
      ZeroIsPrinted();
      PrintMore(Positional(10, front), ConvertDigit(10, c));
    }
  }

  lemma SameDigit(c: char)
    requires IsValidDigit(10, c)
    ensures 0 <= ConvertDigit(10, c) < 10 && DigitFor(ConvertDigit(10, c)) == c
  {
  }

  lemma ZeroIsPrinted()
    ensures PrintIn(10, 0) == "0"
  {
  }

  lemma PrintMore(v: nat, d: nat)
    requires d < 10
    ensures Times(10, v) == 10 * v
    ensures PrintIn(10, 10 * v + d) == if v == 0 then [DigitFor(d)] else PrintIn(10, v) + [DigitFor(d)]
  {
    hide DigitFor;
    assert (10 * v + d) / 10 == v && (10 * v + d) % 10 == d;
  }

  // ----- Upper and lower case -----

  function Upper(t: string): (u: string)
    ensures |u| == |t|
  {
    seq(|t|, k requires 0 <= k < |t| => ToUpper(t[k]))
  }

  lemma UpperDigit(c: char)
    requires IsXDigit(c)
    ensures IsXDigit(ToUpper(c)) && ConvertDigit(16, ToUpper(c)) == ConvertDigit(16, c)
  {
  }

  lemma {:induction false} UpperKeepsValue(t: string)
    requires AllDigits(16, t)
    ensures AllDigits(16, Upper(t)) && Positional(16, Upper(t)) == Positional(16, t)
  {
    if t == [] {
    } else {
      var front := t[..|t| - 1];
      assert IsValidDigit(16, t[|t| - 1]);
      UpperDigit(t[|t| - 1]);
      UpperKeepsValue(front);
      assert Upper(t)[..|t| - 1] == Upper(front);
    }
  }
}
