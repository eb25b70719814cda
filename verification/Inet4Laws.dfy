/** What the IPv4 parsers promise, against the IPv4address rule of RFC 3986, section 3.2.2. */
module Inet4Laws {
  import opened Machine
  import opened Text
  import opened Numbers
  import opened Inet4

  // ----- The IPv4address rule -----

  /** The dec-octet rule, alternative by alternative. */
  predicate IsDecOctet(t: string) {
    || (|t| == 1 && IsDigit(t[0]))
    || (|t| == 2 && '1' <= t[0] <= '9' && IsDigit(t[1]))
    || (|t| == 3 && t[0] == '1' && IsDigit(t[1]) && IsDigit(t[2]))
    || (|t| == 3 && t[0] == '2' && '0' <= t[1] <= '4' && IsDigit(t[2]))
    || (|t| == 3 && t[0] == '2' && t[1] == '5' && '0' <= t[2] <= '5')
  }

  function PrintOctet(v: byte): string {
    PrintIn(10, v)
  }

  function PrintAddress(x: uint32): string {
    var b := Octets(x);
    Join([PrintOctet(b[0]), PrintOctet(b[1]), PrintOctet(b[2]), PrintOctet(b[3])], '.')
  }

  predicate IsIPv4address(s: string) {
    var p := Split(s, '.');
    |p| == 4 && IsDecOctet(p[0]) && IsDecOctet(p[1]) && IsDecOctet(p[2]) && IsDecOctet(p[3])
  }

  // ----- One octet -----

  lemma TwoDigits(t: string)
    requires |t| == 2 && AllDigits(10, t)
    ensures Positional(10, t) == 10 * ConvertDigit(10, t[0]) + ConvertDigit(10, t[1])
  {
    assert t[..2] == t;
    OneDigit(10, t[..1]);
    NextDigit(10, t, 1);
  }

  lemma ThreeDigits(t: string)
    requires |t| == 3 && AllDigits(10, t)
    ensures Positional(10, t) == 100 * ConvertDigit(10, t[0]) + 10 * ConvertDigit(10, t[1]) + ConvertDigit(10, t[2])
  {
    assert t[..3] == t;
    TwoDigits(t[..2]);
    NextDigit(10, t, 2);
  }

  /** The checks of the canonical component parser accept exactly the dec-octet rule. */
  lemma OctetIffDecOctet(t: string)
    ensures CanonicalOctet(t) >= 0 <==> IsDecOctet(t)
    ensures IsDecOctet(t) ==> AllDigits(10, t) && CanonicalOctet(t) == Positional(10, t)
  {
    hide Positional;
    if AllDigits(10, t) {
      if |t| == 1 {
        OneDigit(10, t);
      } else if |t| == 2 {
        TwoDigits(t);
      } else if |t| == 3 {
        ThreeDigits(t);
      }
    }
  }

  lemma PrintedOctet(v: byte)
    ensures IsDecOctet(PrintOctet(v)) && CanonicalOctet(PrintOctet(v)) == v
  {
    hide Positional, PrintIn, IsDecOctet;
    OneMoreDigit(10, v);
    OneMoreDigit(10, v / 10);
    OneMoreDigit(10, v / 10 / 10);
    OctetIffDecOctet(PrintOctet(v));
  }

  lemma OctetIsPrinted(t: string)
    requires IsDecOctet(t)
    ensures 0 <= CanonicalOctet(t) <= 255 && t == PrintOctet(CanonicalOctet(t))
  {
    OctetIffDecOctet(t);
    hide Positional, CanonicalOctet, PrintIn;
    DigitsArePrinted(t);
  }

  lemma PrintedIsFree(v: byte)
    ensures Free(PrintOctet(v), '.')
  {
    hide Positional;
  }

  // ----- The dotted-decimal parser -----

  lemma PrintedParts(x: uint32)
    ensures var b := Octets(x);
            Split(PrintAddress(x), '.') == [PrintOctet(b[0]), PrintOctet(b[1]), PrintOctet(b[2]), PrintOctet(b[3])]
  {
    hide PrintOctet, Free, Split, Join, Octets;
    var b := Octets(x);
    PrintedIsFree(b[0]);
    PrintedIsFree(b[1]);
    PrintedIsFree(b[2]);
    PrintedIsFree(b[3]);
    SplitJoin([PrintOctet(b[0]), PrintOctet(b[1]), PrintOctet(b[2]), PrintOctet(b[3])], '.');
  }

  /** Every address survives printing and parsing. */
  lemma PrintThenParse(x: uint32)
    ensures IsIPv4address(PrintAddress(x))
    ensures CanonicalAddress(PrintAddress(x)) == Some(x)
  {
    PrintedParts(x);
    var b := Octets(x);
    PrintedOctet(b[0]);
    PrintedOctet(b[1]);
    PrintedOctet(b[2]);
    PrintedOctet(b[3]);
    OfOctetsRoundTrip(x);
    hide PrintOctet, PrintAddress, Split, Octets, CanonicalOctet, IsDecOctet;
  }

  /** Every text of the IPv4address rule is the printed form of the address that the parser reads from it. */
  lemma ParseThenPrint(s: string)
    requires IsIPv4address(s)
    ensures CanonicalAddress(s).Some? && PrintAddress(CanonicalAddress(s).value) == s
  {
    var p := Split(s, '.');
    OctetIsPrinted(p[0]);
    OctetIsPrinted(p[1]);
    OctetIsPrinted(p[2]);
    OctetIsPrinted(p[3]);
    JoinSplit(s, '.');
    var b := [CanonicalOctet(p[0]), CanonicalOctet(p[1]), CanonicalOctet(p[2]), CanonicalOctet(p[3])];
    OctetsRoundTrip(b);
    hide PrintOctet, Split, Octets, CanonicalOctet, IsDecOctet, Join;
    assert p == [p[0], p[1], p[2], p[3]];
  }

  function IPv4Value(s: string): Option<uint32> {
    if IsIPv4address(s) then CanonicalAddress(s) else None
  }

  /**
   The parser never looks at the sign of its fourth component, so it does more than the rule allows: whatever
   follows the third dot is taken, and what is no octet there makes the whole address 255.255.255.255.
   */
  lemma CanonicalVersusRfc(s: string)
    ensures var p := Split(s, '.');
            var three := |p| == 4 && IsDecOctet(p[0]) && IsDecOctet(p[1]) && IsDecOctet(p[2]);
            && (CanonicalAddress(s).Some? <==> three)
            && (CanonicalAddress(s) == IPv4Value(s) <==> (three ==> IsDecOctet(p[3])))
            && (three && !IsDecOctet(p[3]) ==> CanonicalAddress(s) == Some(0xFFFF_FFFF))
  {
    var p := Split(s, '.');
    if |p| == 4 {
      OctetIffDecOctet(p[0]);
      OctetIffDecOctet(p[1]);
      OctetIffDecOctet(p[2]);
      OctetIffDecOctet(p[3]);
    }
    hide Split, CanonicalOctet, IsDecOctet, Pack;
    if |p| == 4 && CanonicalOctet(p[3]) == -1 {
      AllOnes(p);
    }
  }

  lemma AllOnes(p: seq<string>)
    requires |p| == 4 && CanonicalOctet(p[3]) == -1
    ensures var r := FromOctets(CanonicalOctet(p[0]), CanonicalOctet(p[1]), CanonicalOctet(p[2]), CanonicalOctet(p[3]));
            r == None || r == Some(0xFFFF_FFFF)
  {
  }

  /** A text that the rule refuses and the parser accepts. */
  lemma TrailingDotIsAccepted()
    ensures !IsIPv4address("1.2.3.") && CanonicalAddress("1.2.3.") == Some(0xFFFF_FFFF)
  {
    hide CanonicalAddress;
    TrailingDotSplit();
    CanonicalVersusRfc("1.2.3.");
  }

  lemma TrailingDotSplit()
    ensures Split("1.2.3.", '.') == ["1", "2", "3", ""]
  {
    var p := ["1", "2", "3", ""];
    assert p[..3][..2] == p[..2] && p[..2][..1] == p[..1];
    assert Join(p[..1], '.') == "1";
    assert Join(p[..2], '.') == "1.2";
    assert Join(p[..3], '.') == "1.2.3";
    assert Join(p, '.') == "1.2.3.";
    SplitJoin(p, '.');
  }

  // ----- The permissive parser -----

  lemma HexIsRead(maxValue: uint32, v: nat, x: char)
    requires v <= maxValue && (x == 'x' || x == 'X')
    ensures PermissivePart(maxValue, ['0', x] + PrintIn(16, v)) == v
  {
    hide Positional, PrintIn, AllDigits;
    var t := ['0', x] + PrintIn(16, v);
    assert t[2..] == PrintIn(16, v);
  }

  lemma OctalIsRead(maxValue: uint32, v: nat)
    requires 0 < v <= maxValue
    ensures PermissivePart(maxValue, "0" + PrintIn(8, v)) == v
  {
    hide Positional, PrintIn;
    var t := "0" + PrintIn(8, v);
    assert t[1..] == PrintIn(8, v);
    assert IsValidDigit(8, PrintIn(8, v)[0]) && t[1] == PrintIn(8, v)[0];
    assert ToUpper(t[1]) != 'X';
  }

  lemma DecimalIsRead(maxValue: uint32, v: nat)
    requires v <= maxValue
    ensures PermissivePart(maxValue, PrintIn(10, v)) == v
  {
    hide Positional, PrintIn;
  }

  lemma TwoZerosAreDecimal(maxValue: uint32, v: nat)
    requires v <= maxValue
    ensures PermissivePart(maxValue, "00" + PrintIn(10, v)) == v
  {
    hide Positional, PrintIn, AllDigits;
    var t := PrintIn(10, v);
    ZeroKeepsValue(10, t);
    ZeroKeepsValue(10, "0" + t);
    assert "0" + ("0" + t) == "00" + t;
  }

  /** Every number is read back in every base: hexadecimal behind 0x, octal behind 0, else decimal, even behind 00. */
  lemma EveryBaseIsRead(maxValue: uint32, v: nat)
    requires v <= maxValue
    ensures PermissivePart(maxValue, "0x" + PrintIn(16, v)) == v
    ensures PermissivePart(maxValue, "0X" + PrintIn(16, v)) == v
    ensures v > 0 ==> PermissivePart(maxValue, "0" + PrintIn(8, v)) == v
    ensures PermissivePart(maxValue, PrintIn(10, v)) == v
    ensures PermissivePart(maxValue, "00" + PrintIn(10, v)) == v
  {
    hide PermissivePart, PrintIn;
    HexIsRead(maxValue, v, 'x');
    HexIsRead(maxValue, v, 'X');
    if v > 0 {
      OctalIsRead(maxValue, v);
    }
    DecimalIsRead(maxValue, v);
    TwoZerosAreDecimal(maxValue, v);
  }

  lemma ZeroPart()
    ensures PermissivePart(255, "0") == 0
  {
    OneDigit(10, "0");
  }

  /** The short forms leave out zeros: a.b is a.0.0.b, and a.b.c is a.b.0.c. */
  lemma ShortForms(a: string, b: string, c: string)
    requires Free(a, '.') && Free(b, '.') && Free(c, '.')
    ensures PermissiveAddress(Join([a, c], '.')) == PermissiveAddress(Join([a, "0", "0", c], '.'))
    ensures PermissiveAddress(Join([a, b, c], '.')) == PermissiveAddress(Join([a, b, "0", c], '.'))
  {
    hide Split, Join, PermissivePart, Pack;
    ZeroPart();
    assert Free("0", '.');
    SplitJoin([a, c], '.');
    SplitJoin([a, "0", "0", c], '.');
    SplitJoin([a, b, c], '.');
    SplitJoin([a, b, "0", c], '.');
  }

  lemma DecOctetIsPermissive(t: string)
    requires IsDecOctet(t)
    ensures PermissivePart(255, t) == CanonicalOctet(t) >= 0
  {
    OctetIffDecOctet(t);
    hide Positional;
  }

  /**
   A dotted-decimal text means the same to both parsers exactly when its fourth component is an octet, or both
   arrive at 255.255.255.255 by different ways.
   */
  lemma CanonicalVersusPermissive(s: string)
    requires CanonicalAddress(s).Some?
    ensures var p := Split(s, '.');
            && |p| == 4
            && (PermissiveAddress(s) == CanonicalAddress(s) <==>
                || IsDecOctet(p[3])
                || (p[0] == p[1] == p[2] == "255" && PermissivePart(255, p[3]) == 255))
  {
    CanonicalVersusRfc(s);
    var p := Split(s, '.');
    hide Split, CanonicalOctet, IsDecOctet, PermissivePart;
    FirstThree(p[0]);
    FirstThree(p[1]);
    FirstThree(p[2]);
    if IsDecOctet(p[3]) {
      DecOctetIsPermissive(p[3]);
    }
    OctetIffDecOctet(p[3]);
  }

  lemma FirstThree(t: string)
    requires IsDecOctet(t)
    ensures PermissivePart(255, t) == CanonicalOctet(t) >= 0 && (CanonicalOctet(t) == 255 <==> t == "255")
  {
    DecOctetIsPermissive(t);
    OctetIsPrinted(t);
    PrintedOctet(255);
    OneMoreDigit(10, 255);
    assert PrintIn(10, 2) == "2" && PrintIn(10, 25) == "25" && PrintOctet(255) == "255";
  }

  /** A text that the canonical parser accepts and the permissive one refuses. */
  lemma TrailingDotIsRefused()
    ensures CanonicalAddress("1.2.3.").Some? && PermissiveAddress("1.2.3.") == None
  {
    hide Split, CanonicalAddress, PermissivePart;
    TrailingDotIsAccepted();
    TrailingDotSplit();
    EmptyPart();
  }

  lemma EmptyPart()
    ensures PermissivePart(255, "") == -1
  {
  }

  /** What a single number is meant to denote: any 32-bit value. */
  function SingleNumber(s: string): Option<uint32> {
    var v := PermissivePart(0xFFFF_FFFF, s);
    if v < 0 then None else Some(v)
  }

  /** A single number passes through an `int` on its way, so the upper half of the range is refused. */
  lemma SingleNumberNeedsThirtyOneBits(s: string)
    requires Free(s, '.')
    ensures PermissiveAddress(s) == SingleNumber(s) <==> PermissivePart(0xFFFF_FFFF, s) < 0x8000_0000
    ensures PermissivePart(0xFFFF_FFFF, s) >= 0x8000_0000 ==> PermissiveAddress(s) == None
  {
    SplitJoin([s], '.');
    hide Split, PermissivePart;
  }

  /** 2^31 is the first number that is refused. */
  lemma LargeNumberIsRefused()
    ensures SingleNumber("2147483648") == Some(2147483648) && PermissiveAddress("2147483648") == None
  {
    hide Positional, PermissivePart, PermissiveAddress;
    LargeNumberPrinted();
    DecimalIsRead(0xFFFF_FFFF, 2147483648);
    SingleNumberNeedsThirtyOneBits("2147483648");
  }

  lemma LargeNumberPrinted()
    ensures PrintIn(10, 2147483648) == "2147483648"
  {
    hide PrintIn;
    FirstHalfPrinted();
    PrintMore(21474, 8);
    PrintMore(214748, 3);
    PrintMore(2147483, 6);
    PrintMore(21474836, 4);
    PrintMore(214748364, 8);
  }

  lemma FirstHalfPrinted()
    ensures PrintIn(10, 21474) == "21474"
  {
    ZeroIsPrinted();
    PrintMore(0, 2);
    hide PrintIn;
    PrintMore(2, 1);
    PrintMore(21, 4);
    PrintMore(214, 7);
    PrintMore(2147, 4);
  }
}
