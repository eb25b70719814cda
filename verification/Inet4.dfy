/** The two IPv4 parsers: dotted decimal (`inet_addr_canonical_at`) and the permissive `inet_addr_impl`. */
module Inet4 {
  import opened Machine
  import opened Text
  import opened AddressComponent
  import opened Numbers

  // ----- What the components mean -----

  /** A component of the dotted-decimal form; -1 when it is refused. */
  function CanonicalOctet(t: string): (v: int)
    ensures -1 <= v <= 255
  {
    if |t| >= 2 && t[0] == '0' && IsDigit(t[1]) then -1 else Component(10, 255, 3, t)
  }

  /** A component of the permissive form: its prefix selects the base. */
  function PermissivePart(maxValue: uint32, t: string): (v: int)
    ensures -1 <= v <= maxValue
  {
    if |t| >= 2 && t[0] == '0' && ToUpper(t[1]) == 'X' then Component(16, maxValue, 0, t[2..])
    else if |t| >= 2 && t[0] == '0' && IsDigit(t[1]) && t[1] != '0' then Component(8, maxValue, 0, t[1..])
    else Component(10, maxValue, 0, t)
  }

  /** The four components in their places. A c4 of -1 has every bit set, and so has the result. */
  function Pack(c1: int, c2: int, c3: int, c4: int): uint32
    requires Packable(c1, c2, c3, c4)
  {
    if c4 == -1 then 0xFFFF_FFFF else Word(c1, c2, c3, c4)
  }

  /** Three octets and what the code lets stand as the fourth; a single number stands alone. */
  predicate Packable(c1: int, c2: int, c3: int, c4: int) {
    && 0 <= c1 < 256 && 0 <= c2 < 256 && 0 <= c3 < 256
    && (-1 <= c4 < 256 || (c1 == c2 == c3 == 0 && 0 <= c4 < 0x1_0000_0000))
  }

  // ----- Bits -----

  /** Bitwise or. */
  function Or(x: nat, y: nat): nat
    decreases x + y
  {
    if x == 0 && y == 0 then 0
    else 2 * Or(x / 2, y / 2) + if x % 2 == 1 || y % 2 == 1 then 1 else 0
  }

  /** 2 to the power of k, which is 1 shifted by k. */
  function Shifted(k: nat): (p: nat)
    ensures p > 0
  {
    if k == 0 then 1 else 2 * Shifted(k - 1)
  }

  /** The bits of a `long long`. */
  function Bits64(c: int): nat
    requires -0x8000_0000_0000_0000 <= c < 0x8000_0000_0000_0000
  {
    if c < 0 then c + 0x1_0000_0000_0000_0000 else c
  }

  /** `static_cast<uint32_t>((c1 << 24) | (c2 << 16) | (c3 << 8) | c4)` */
  function OrTogether(c1: int, c2: int, c3: int, c4: int): uint32
    requires Packable(c1, c2, c3, c4)
  {
    Or(Or(Or(c1 * 0x100_0000, c2 * 0x1_0000), c3 * 0x100), Bits64(c4)) % 0x1_0000_0000
  }

  lemma {:induction false} OrWithNothing(x: nat)
    ensures Or(x, 0) == x
  {
    if x == 0 {
    } else {
      OrWithNothing(x / 2);
    }
  }

  /** Or-ing bits below a shifted number adds them. */
  lemma {:induction false} OrBelowShift(a: nat, k: nat, y: nat)
    requires y < Shifted(k)
    ensures Or(a * Shifted(k), y) == a * Shifted(k) + y
    decreases k
  {
    if k == 0 {
      OrWithNothing(a);
    } else {
      var half := a * Shifted(k - 1);
      assert a * Shifted(k) == 2 * half;
      OrBelowShift(a, k - 1, y / 2);
    }
  }

  lemma {:induction false} OrWithAllOnes(x: nat, k: nat)
    requires x < Shifted(k)
    ensures Or(x, Shifted(k) - 1) == Shifted(k) - 1
    decreases k
  {
    if k == 0 {
    } else {
      var half := Shifted(k - 1);
      assert (2 * half - 1) / 2 == half - 1 && (2 * half - 1) % 2 == 1;
      OrWithAllOnes(x / 2, k - 1);
    }
  }

  lemma EightMore(k: nat)
    ensures Shifted(k + 8) == 0x100 * Shifted(k)
  {
    assert Shifted(k + 2) == 4 * Shifted(k);
    assert Shifted(k + 4) == 4 * Shifted(k + 2);
    assert Shifted(k + 6) == 4 * Shifted(k + 4);
  }

  lemma Powers()
    ensures Shifted(8) == 0x100 && Shifted(16) == 0x1_0000 && Shifted(24) == 0x100_0000
    ensures Shifted(32) == 0x1_0000_0000 && Shifted(64) == 0x1_0000_0000_0000_0000
  {
    assert Shifted(0) == 1;
    hide Shifted;
    EightMore(0);
    EightMore(8);
    EightMore(16);
    EightMore(24);
    EightMore(32);
    EightMore(40);
    EightMore(48);
    EightMore(56);
  }

  /** The or of the shifted components is the number that has them as its digits in base 256; or all ones. */
  lemma OrTogetherIsPack(c1: int, c2: int, c3: int, c4: int)
    requires Packable(c1, c2, c3, c4)
    ensures OrTogether(c1, c2, c3, c4) == Pack(c1, c2, c3, c4)
  {
    hide Or, Shifted;
    Powers();
    OrBelowShift(c1, 24, c2 * 0x1_0000);
    OrBelowShift(c1 * 0x100 + c2, 16, c3 * 0x100);
    var high := (c1 * 0x100 + c2) * 0x100 + c3;
    if c4 == -1 {
      OrWithAllOnes(high * 0x100, 64);
    } else if c4 < 256 {
      OrBelowShift(high, 8, c4);
    } else {
      OrBelowShift(0, 32, c4);
    }
  }

  // ----- What the addresses mean -----

  /** The canonical parser, on the text from its start index on. */
  function CanonicalAddress(t: string): Option<uint32> {
    var p := Split(t, '.');
    if |p| == 4
    then FromOctets(CanonicalOctet(p[0]), CanonicalOctet(p[1]), CanonicalOctet(p[2]), CanonicalOctet(p[3]))
    else None
  }

  /** Only the first three components can make it fail. */
  function FromOctets(c1: int, c2: int, c3: int, c4: int): Option<uint32>
    requires c1 < 256 && c2 < 256 && c3 < 256 && -1 <= c4 < 256
  {
    if c1 < 0 || c2 < 0 || c3 < 0 then None else Some(Pack(c1, c2, c3, c4))
  }

  /** The permissive parser: one to four components, the single one wide, the others octets. */
  function PermissiveAddress(s: string): Option<uint32> {
    var p := Split(s, '.');
    if |p| == 1 then FromAll(0, 0, 0, ToInt32(PermissivePart(0xFFFF_FFFF, p[0])))
    else if |p| == 2 then FromAll(PermissivePart(255, p[0]), 0, 0, PermissivePart(255, p[1]))
    else if |p| == 3 then
      FromAll(PermissivePart(255, p[0]), PermissivePart(255, p[1]), 0, PermissivePart(255, p[2]))
    else if |p| == 4 then
      FromAll(PermissivePart(255, p[0]), PermissivePart(255, p[1]),
              PermissivePart(255, p[2]), PermissivePart(255, p[3]))
    else None
  }

  function FromAll(c1: int, c2: int, c3: int, c4: int): Option<uint32>
    requires c1 < 256 && c2 < 256 && c3 < 256
    requires c4 < 256 || (c1 == c2 == c3 == 0 && c4 < 0x1_0000_0000)
  {
    if c1 < 0 || c2 < 0 || c3 < 0 || c4 < 0 then None else Some(Pack(c1, c2, c3, c4))
  }

  // ----- The parsers -----

  method ParseInetComponentCanonical(s: string, idx: nat) returns (v: int)
    requires idx <= |s|
    ensures v == CanonicalOctet(Token(s, idx, '.'))
  {
    if |s| + 1 - idx > 2 && At(s, idx) == '0' && IsDigit(At(s, idx + 1)) {
      return -1;
    }
    v := ParseAddressComponent(10, '.', 255, 3, s, idx);
  }

  /** Looking two characters ahead in the array is looking at the component, unless a dot is in the way. */
  lemma PermissivePartAt(maxValue: uint32, s: string, idx: nat)
    requires idx <= |s|
    ensures PermissivePart(maxValue, Token(s, idx, '.')) ==
            if |s| - idx >= 2 && s[idx] == '0' && ToUpper(s[idx + 1]) == 'X'
            then Component(16, maxValue, 0, Token(s, idx + 2, '.'))
            else if |s| - idx >= 2 && s[idx] == '0' && IsDigit(s[idx + 1]) && s[idx + 1] != '0'
            then Component(8, maxValue, 0, Token(s, idx + 1, '.'))
            else Component(10, maxValue, 0, Token(s, idx, '.'))
  {
    var end := TokenEnd(s, idx, '.');
    if |s| - idx >= 2 && s[idx] == '0' && s[idx + 1] != '.' {
      assert end == TokenEnd(s, idx + 1, '.') == TokenEnd(s, idx + 2, '.');
      assert s[idx..end][1..] == s[idx + 1..end];
      assert s[idx..end][2..] == s[idx + 2..end];
    }
  }

  method ParseInetComponent(maxValue: uint32, s: string, idx: nat) returns (v: int)
    requires idx <= |s|
    ensures v == ToInt32(PermissivePart(maxValue, Token(s, idx, '.')))
  {
    PermissivePartAt(maxValue, s, idx);
    var wide;
    if |s| + 1 - idx > 2 && At(s, idx) == '0' && ToUpper(At(s, idx + 1)) == 'X' {
      wide := ParseAddressComponent(16, '.', maxValue, 0, s, idx + 2);
    } else if |s| + 1 - idx > 2 && At(s, idx) == '0' && IsDigit(At(s, idx + 1)) && At(s, idx + 1) != '0' {
      wide := ParseAddressComponent(8, '.', maxValue, 0, s, idx + 1);
    } else {
      wide := ParseAddressComponent(10, '.', maxValue, 0, s, idx);
    }
    return ToInt32(wide);
  }

  /** The result of the canonical parser as it reads the array, from idx on. */
  function CanonicalFrom(s: string, idx: nat): Option<uint32>
    requires idx <= |s|
  {
    var p := Parts(s, idx, |s|, '.');
    if |p| == 4
    then FromOctets(CanonicalOctet(p[0]), CanonicalOctet(p[1]), CanonicalOctet(p[2]), CanonicalOctet(p[3]))
    else None
  }

  /** With exactly three dots behind idx, and none right at idx, the text has these four parts. */
  lemma FourParts(s: string, idx: nat, d3: int, d2: int, d1: int)
    requires idx <= |s|
    requires d3 == LastBefore(s, |s|, '.') && d2 == LastBefore(s, d3, '.') && d1 == LastBefore(s, d2, '.')
    requires LastBefore(s, d1, '.') < idx < d1
    ensures Parts(s, idx, |s|, '.') ==
            [Token(s, idx, '.'), Token(s, d1 + 1, '.'), Token(s, d2 + 1, '.'), Token(s, d3 + 1, '.')]
  {
    hide *;
    PeelLast(s, idx, |s|);
    PeelLast(s, idx, d3);
    TwoParts(s, idx, d2);
    Append(Token(s, idx, '.'), Token(s, d1 + 1, '.'), Token(s, d2 + 1, '.'), Token(s, d3 + 1, '.'));
  }

  lemma Append<T>(a: T, b: T, c: T, d: T)
    ensures [a, b] + [c] + [d] == [a, b, c, d]
  {
  }

  lemma TwoParts(s: string, idx: nat, end: nat)
    requires idx <= end <= |s| && (end < |s| ==> s[end] == '.')
    requires var d := LastBefore(s, end, '.'); idx <= d && LastBefore(s, d, '.') < idx
    ensures Parts(s, idx, end, '.') == [Token(s, idx, '.'), Token(s, LastBefore(s, end, '.') + 1, '.')]
  {
    PeelLast(s, idx, end);
    PeelFirst(s, idx, LastBefore(s, end, '.'));
  }

  lemma NotFourParts(s: string, idx: nat, d3: int, d2: int, d1: int)
    requires idx <= |s|
    requires d3 == LastBefore(s, |s|, '.') && d2 == LastBefore(s, d3, '.') && d1 == LastBefore(s, d2, '.')
    requires idx >= d1 || LastBefore(s, d1, '.') >= idx
    ensures var p := Parts(s, idx, |s|, '.'); |p| != 4 || p[0] == ""
  {
    if d3 >= idx {
      PeelLast(s, idx, |s|);
      if d2 >= idx {
        PeelLast(s, idx, d3);
        if d1 >= idx {
          PeelLast(s, idx, d2);
          PeelFirst(s, idx, d1);
        }
      }
    }
  }

  lemma PeelFirst(s: string, idx: nat, end: nat)
    requires idx <= end <= |s| && (end < |s| ==> s[end] == '.')
    ensures LastBefore(s, end, '.') < idx ==>
              Parts(s, idx, end, '.') == [Token(s, idx, '.')] && Token(s, idx, '.') == s[idx..end]
    ensures LastBefore(s, end, '.') >= idx ==> |Parts(s, idx, end, '.')| >= 2
  {
    if LastBefore(s, end, '.') < idx {
      LastToken(s, idx, end, '.');
    }
  }

  lemma PeelLast(s: string, idx: nat, end: nat)
    requires idx <= end <= |s| && LastBefore(s, end, '.') >= idx
    requires end < |s| ==> s[end] == '.'
    ensures var d := LastBefore(s, end, '.');
            Parts(s, idx, end, '.') == Parts(s, idx, d, '.') + [Token(s, d + 1, '.')]
  {
    LastToken(s, LastBefore(s, end, '.') + 1, end, '.');
  }

  lemma CanonicalFromTokens(s: string, idx: nat, d3: int, d2: int, d1: int)
    requires idx <= |s|
    requires d3 == LastBefore(s, |s|, '.') && d2 == LastBefore(s, d3, '.') && d1 == LastBefore(s, d2, '.')
    ensures CanonicalFrom(s, idx) ==
            if idx < d1 && LastBefore(s, d1, '.') < idx
            then FromOctets(CanonicalOctet(Token(s, idx, '.')), CanonicalOctet(Token(s, d1 + 1, '.')),
                            CanonicalOctet(Token(s, d2 + 1, '.')), CanonicalOctet(Token(s, d3 + 1, '.')))
            else None
  {
    if idx < d1 && LastBefore(s, d1, '.') < idx {
      FourParts(s, idx, d3, d2, d1);
    } else {
      NotFourParts(s, idx, d3, d2, d1);
      assert CanonicalOctet("") == -1;
    }
  }

  /** `inet_addr_canonical_at`; the address is left alone when the text is refused. */
  method InetAddrCanonicalAt(order: ByteOrder, s: string, idx: nat, sAddrIn: uint32) returns (rc: int, sAddr: uint32)
    requires idx <= |s|
    ensures match CanonicalFrom(s, idx)
            case None => rc == -1 && sAddr == sAddrIn
            case Some(a) => rc == 0 && sAddr == HostToNet32(order, a)
  {
    hide CanonicalFrom, CanonicalOctet, Pack, OrTogether, LastBefore, TokenEnd, HostToNet32;
    sAddr := sAddrIn;
    var sep3 := RFindChr(s, |s|, '.');
    var sep2 := RFindChr(s, sep3 - 1, '.');
    var sep1 := RFindChr(s, sep2 - 1, '.');
    var sep0 := RFindChr(s, sep1 - 1, '.');
    CanonicalFromTokens(s, idx, sep3, sep2, sep1);
    if sep3 < idx + 1 || sep2 < idx + 1 || sep1 < idx + 1 || sep0 >= idx {
      return -1, sAddr;
    }
    var c1 := ParseInetComponentCanonical(s, idx);
    var c2 := ParseInetComponentCanonical(s, sep1 + 1);
    var c3 := ParseInetComponentCanonical(s, sep2 + 1);
    var c4 := ParseInetComponentCanonical(s, sep3 + 1);
    if c1 < 0 || c1 < 0 || c2 < 0 || c3 < 0 {
      return -1, sAddr;
    }
    OrTogetherIsPack(c1, c2, c3, c4);
    sAddr := HostToNet32(order, OrTogether(c1, c2, c3, c4));
    rc := 0;
  }

  lemma LeadingDot(s: string)
    requires |s| > 0 && s[0] == '.'
    ensures PermissiveAddress(s) == None
  {
    StartsWithDot(s, |s|);
    EmptyFirstPart(s, |s|);
    assert PermissivePart(255, "") == -1;
  }

  lemma {:induction false} EmptyFirstPart(s: string, end: nat)
    requires end <= |s| && |s| > 0 && s[0] == '.'
    ensures Parts(s, 0, end, '.')[0] == "" && (end > 0 ==> |Parts(s, 0, end, '.')| > 1)
    decreases end
  {
    if end == 0 {
    } else {
      StartsWithDot(s, end);
      EmptyFirstPart(s, LastBefore(s, end, '.'));
    }
  }

  lemma {:induction false} StartsWithDot(s: string, end: nat)
    requires 0 < end <= |s| && s[0] == '.'
    ensures LastBefore(s, end, '.') >= 0
  {
    if end <= 1 {
    } else {
      StartsWithDot(s, end - 1);
    }
  }

  /** The permissive address in terms of the components that start after the last dots. */
  lemma PermissiveTokens(s: string, d3: int, d2: int, d1: int)
    requires d3 == LastBefore(s, |s|, '.') && d2 == LastBefore(s, d3, '.') && d1 == LastBefore(s, d2, '.')
    ensures PermissiveAddress(s) ==
            if d3 < 0 then FromAll(0, 0, 0, ToInt32(PermissivePart(0xFFFF_FFFF, Token(s, 0, '.'))))
            else if d2 < 0 then FromAll(Octet(s, 0), 0, 0, Octet(s, d3 + 1))
            else if d1 < 0 then FromAll(Octet(s, 0), Octet(s, d2 + 1), 0, Octet(s, d3 + 1))
            else if LastBefore(s, d1, '.') < 0
            then FromAll(Octet(s, 0), Octet(s, d1 + 1), Octet(s, d2 + 1), Octet(s, d3 + 1))
            else None
  {
    hide PermissivePart, ToInt32, Pack, FromAll, LastBefore, Parts, TokenEnd;
    if d3 < 0 {
      PeelFirst(s, 0, |s|);
    } else if d2 < 0 {
      TwoParts(s, 0, |s|);
    } else if d1 < 0 {
      PeelLast(s, 0, |s|);
      TwoParts(s, 0, d3);
    } else if LastBefore(s, d1, '.') < 0 {
      PeelLast(s, 0, |s|);
      PeelLast(s, 0, d3);
      TwoParts(s, 0, d2);
    } else {
      PeelLast(s, 0, |s|);
      PeelLast(s, 0, d3);
      PeelLast(s, 0, d2);
      PeelFirst(s, 0, d1);
    }
  }

  function Octet(s: string, from: nat): (v: int)
    requires from <= |s|
    ensures v < 256
  {
    PermissivePart(255, Token(s, from, '.'))
  }

  /** `inet_addr_impl`; the address is left alone when the text is refused. */
  method InetAddrImpl(order: ByteOrder, s: string, sAddrIn: uint32) returns (rc: int, sAddr: uint32)
    ensures match PermissiveAddress(s)
            case None => rc == -1 && sAddr == sAddrIn
            case Some(a) => rc == 0 && sAddr == HostToNet32(order, a)
  {
    hide PermissiveAddress, PermissivePart, ToInt32, Pack, OrTogether, LastBefore, HostToNet32, Token, TokenEnd, Word;
    sAddr := sAddrIn;
    var c1, c2, c3, c4 := 0, 0, 0, 0;
    if At(s, 0) == '.' || At(s, |s|) == '.' {
      LeadingDot(s);
      return -1, sAddr;
    }
    var sep3 := RFindChr(s, |s|, '.');
    PermissiveTokens(s, sep3, LastBefore(s, sep3, '.'), LastBefore(s, LastBefore(s, sep3, '.'), '.'));
    if sep3 > 0 {
      c1 := ParseInetComponent(255, s, 0);
      c4 := ParseInetComponent(255, s, sep3 + 1);
      var sep2 := RFindChr(s, sep3 - 1, '.');
      if sep2 > 0 {
        var sep1 := RFindChr(s, sep2 - 1, '.');
        if sep1 > 0 {
          var sep0 := RFindChr(s, sep1 - 1, '.');
          if sep0 != -1 {
            return -1, sAddr;
          }
          c2 := ParseInetComponent(255, s, sep1 + 1);
          c3 := ParseInetComponent(255, s, sep2 + 1);
        } else {
          c2 := ParseInetComponent(255, s, sep2 + 1);
        }
      }
    } else {
      c4 := ParseInetComponent(0xFFFF_FFFF, s, 0);
    }
    if c1 < 0 || c2 < 0 || c3 < 0 || c4 < 0 {
      return -1, sAddr;
    }
    OrTogetherIsPack(c1, c2, c3, c4);
    sAddr := HostToNet32(order, OrTogether(c1, c2, c3, c4));
    rc := 0;
  }

  /** Parsing at an index is parsing the suffix that starts there. */
  lemma ParsingAtIsParsingTheSuffix(s: string, idx: nat)
    requires idx <= |s|
    ensures CanonicalFrom(s, idx) == CanonicalAddress(s[idx..])
  {
    hide FromOctets, CanonicalOctet, Parts;
    PartsOfSuffix(s, idx, |s|, '.');
  }
}
