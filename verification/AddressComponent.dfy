/** The digit loop shared by the IPv4 and IPv6 parsers. */
module AddressComponent {
  import opened Machine
  import opened Numbers
  import opened Text

  /**
   What a component of an address means: the value of the whole text, or -1 when it is empty,
   holds another character, is too long (a `maxLength` of 0 sets no limit) or is too large.
   */
  function Component(base: Radix, maxValue: uint32, maxLength: nat, t: string): int {
    if t != [] && AllDigits(base, t) && (maxLength > 0 ==> |t| <= maxLength) && Positional(base, t) <= maxValue
    then Positional(base, t)
    else -1
  }

  /** Values up to 32 bits, times 16, plus a digit. */
  type Accumulator = x: int | 0 <= x < 0x10_0000_0000

  /**
   `parse_address_component`. The type of `res` states that the `long long` stays below 2^36, however long
   the input is; the early returns give the answer that the whole component would give.
   */
  method ParseAddressComponent(base: Radix, sep: char, maxValue: uint32, maxLength: nat, s: string, idx: nat)
    returns (r: int)
    requires idx <= |s|
    ensures r == Component(base, maxValue, maxLength, Token(s, idx, sep))
  {
    hide Positional, ConvertDigit;
    EmptyValue(base);
    var res: Accumulator := 0;
    if |s| - idx <= 0 || At(s, idx) == sep {
      return -1;
    }
    ghost var t := Token(s, idx, sep);
    var i := idx;
    while i < |s| && s[i] != sep
      invariant idx <= i <= |s| && TokenEnd(s, idx, sep) == TokenEnd(s, i, sep)
      invariant AllDigits(base, t[..i - idx]) && res == Positional(base, t[..i - idx]) <= maxValue
      invariant maxLength > 0 ==> i - idx <= maxLength
    {
      if maxLength > 0 && i - idx + 1 > maxLength {
        return -1;
      }
      if !IsValidDigit(base, s[i]) {
        assert t[i - idx] == s[i];
        return -1;
      }
      NextDigit(base, t, i - idx);
      res := Times(base, res);
      res := res + ConvertDigit(base, s[i]);
      i := i + 1;
      if res > maxValue {
        if AllDigits(base, t) {
          PrefixIsSmaller(base, t, i - idx);
        }
        return -1;
      }
    }
    assert t[..i - idx] == t;
    return res;
  }
}
