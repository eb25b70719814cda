/** The languages and values of the two IPv4 parsers, on the text: numerals, their limits and their places. */
module Inet4Values {
  import opened Machine
  import opened Text
  import opened Numbers
  import opened AddressComponent
  import opened Numerals
  import opened Inet4
  import opened Inet4Laws

  // ----- The permissive form -----

  /** t is a numeral with the value v: hexadecimal behind 0x, octal behind 0 and another digit than 0, else decimal. */
  ghost predicate PermissiveNumeral(t: string, v: int) {
    if |t| >= 2 && t[0] == '0' && (t[1] == 'x' || t[1] == 'X') then Numeral(16, t[2..], v)
    else if |t| >= 2 && t[0] == '0' && '1' <= t[1] <= '9' then Numeral(8, t[1..], v)
    else Numeral(10, t, v)
  }

  lemma PermissivePartIs(maxValue: uint32, t: string, v: int)
    ensures PermissivePart(maxValue, t) == v && v >= 0 <==> PermissiveNumeral(t, v) && 0 <= v <= maxValue
  {
    hide Component, Numeral;
    if |t| >= 2 {
      ComponentIsNumeral(16, maxValue, 0, t[2..], v);
      ComponentIsNumeral(8, maxValue, 0, t[1..], v);
      assert ToUpper(t[1]) == 'X' <==> t[1] == 'x' || t[1] == 'X';
    }
    ComponentIsNumeral(10, maxValue, 0, t, v);
  }

  /** What a part may be at most: an octet, or 31 bits if it stands alone. */
  function PartLimit(n: nat): nat {
    if n == 1 then 0x7FFF_FFFF else 0xFF
  }

  /** The last part counts as it is, the others from the most significant octet on. */
  function InPlaces(v: seq<int>): int
    requires 1 <= |v| <= 4
  {
    if |v| == 1 then v[0]
    else if |v| == 2 then v[0] * 0x100_0000 + v[1]
    else if |v| == 3 then v[0] * 0x100_0000 + v[1] * 0x1_0000 + v[2]
    else v[0] * 0x100_0000 + v[1] * 0x1_0000 + v[2] * 0x100 + v[3]
  }

  /** These are the values of the parts, each of them within its limit. */
  ghost predicate PartValues(parts: seq<string>, values: seq<int>) {
    && |values| == |parts|
    && forall k :: 0 <= k < |parts| ==> PermissiveNumeral(parts[k], values[k]) && 0 <= values[k] <= PartLimit(|parts|)
  }

  /** What the permissive form of the address x is: one to four numerals, each in its place. */
  ghost predicate PermissiveForm(s: string, x: int) {
    var p := Split(s, '.');
    |p| <= 4 && exists values :: PartValues(p, values) && InPlaces(values) == x
  }

  function PartsRead(parts: seq<string>): (values: seq<int>)
    ensures |values| == |parts|
  {
    seq(|parts|, k requires 0 <= k < |parts| => PermissivePart(if |parts| == 1 then 0xFFFF_FFFF else 255, parts[k]))
  }

  predicate AllRead(parts: seq<string>) {
    forall k :: 0 <= k < |parts| ==> 0 <= PartsRead(parts)[k] <= PartLimit(|parts|)
  }

  lemma PartReadIs(parts: seq<string>, k: nat, v: int)
    requires k < |parts|
    ensures PartsRead(parts)[k] == v && 0 <= v <= PartLimit(|parts|)
            <==> PermissiveNumeral(parts[k], v) && 0 <= v <= PartLimit(|parts|)
  {
    hide PermissivePart, PermissiveNumeral;
    PermissivePartIs(if |parts| == 1 then 0xFFFF_FFFF else 255, parts[k], v);
  }

  lemma PartValuesAre(parts: seq<string>, values: seq<int>)
    ensures PartValues(parts, values) <==> AllRead(parts) && values == PartsRead(parts)
  {
    hide PermissiveNumeral, PartsRead;
    if |values| == |parts| {
      forall k | 0 <= k < |parts|
        ensures PartsRead(parts)[k] == values[k] && 0 <= values[k] <= PartLimit(|parts|)
                <==> PermissiveNumeral(parts[k], values[k]) && 0 <= values[k] <= PartLimit(|parts|)
      {
        PartReadIs(parts, k, values[k]);
      }
    }
  }

  lemma PermissiveReads(s: string, x: uint32)
    ensures var p := Split(s, '.');
            PermissiveAddress(s) == Some(x) <==> |p| <= 4 && AllRead(p) && InPlaces(PartsRead(p)) == x
  {
    hide Split, PermissivePart;
    var p := Split(s, '.');
    if |p| <= 4 {
      ReadOneByOne(p);
    }
    hide PartsRead, AllRead, PartLimit;
  }

  lemma ReadOneByOne(p: seq<string>)
    requires 1 <= |p| <= 4
    ensures |p| == 1 ==> PartsRead(p)[0] == PermissivePart(0xFFFF_FFFF, p[0])
    ensures |p| > 1 ==> forall k :: 0 <= k < |p| ==> PartsRead(p)[k] == PermissivePart(255, p[k])
    ensures AllRead(p)
            <==> (if |p| == 1 then 0 <= PartsRead(p)[0] < 0x8000_0000
                  else PartsRead(p)[0] >= 0 && PartsRead(p)[1] >= 0 && (|p| > 2 ==> PartsRead(p)[2] >= 0)
                       && (|p| > 3 ==> PartsRead(p)[3] >= 0))
  {
    hide PermissivePart;
  }

  /** The permissive parser accepts exactly one to four numerals within their limits, and adds them in their places. */
  lemma PermissiveLanguage(s: string, x: uint32)
    ensures PermissiveAddress(s) == Some(x) <==> PermissiveForm(s, x)
  {
    hide Split, PartValues, AllRead, PartsRead, InPlaces, PermissiveAddress;
    var p := Split(s, '.');
    forall values ensures PartValues(p, values) <==> AllRead(p) && values == PartsRead(p) {
      PartValuesAre(p, values);
    }
    PermissiveReads(s, x);
  }

  // ----- Dotted decimal -----

  /** A dec-octet is a decimal numeral up to 255 without superfluous zeros. */
  lemma DecOctetIsNumeral(t: string, v: int)
    ensures IsDecOctet(t) && CanonicalOctet(t) == v
            <==> Numeral(10, t, v) && 0 <= v <= 255 && (t[0] == '0' ==> t == "0")
  {
    OctetIffDecOctet(t);
    hide IsDecOctet, Numeral, Positional;
    ComponentIsNumeral(10, 255, 3, t, v);
    if Numeral(10, t, v) && 0 <= v <= 255 && (t[0] == '0' ==> t == "0") {
      NumeralIs(10, t, v);
      DigitsArePrinted(t);
      OneMoreDigit(10, v);
      OneMoreDigit(10, v / 10);
      OneMoreDigit(10, v / 10 / 10);
    }
  }

  /**
   The canonical parser adds up the values of the three octets in their places, and that of the fourth; if this is no
   octet, all bits are set.
   */
  lemma CanonicalValue(s: string, v: seq<int>)
    requires var p := Split(s, '.');
             |v| == |p| == 4 && forall k :: 0 <= k < 3 ==> IsDecOctet(p[k]) && Numeral(10, p[k], v[k])
    ensures IsDecOctet(Split(s, '.')[3]) && Numeral(10, Split(s, '.')[3], v[3]) ==>
              CanonicalAddress(s) == Some(InPlaces(v))
    ensures !IsDecOctet(Split(s, '.')[3]) ==> CanonicalAddress(s) == Some(0xFFFF_FFFF)
  {
    hide Split, Numeral, IsDecOctet, CanonicalOctet;
    var p := Split(s, '.');
    CanonicalVersusRfc(s);
    OctetValue(p[0], v[0]);
    OctetValue(p[1], v[1]);
    OctetValue(p[2], v[2]);
    if IsDecOctet(p[3]) && Numeral(10, p[3], v[3]) {
      OctetValue(p[3], v[3]);
    }
  }

  lemma OctetValue(t: string, v: int)
    requires IsDecOctet(t) && Numeral(10, t, v)
    ensures CanonicalOctet(t) == v && 0 <= v <= 255
  {
    OctetIffDecOctet(t);
    hide IsDecOctet, Numeral, Positional, CanonicalOctet;
    NumeralIs(10, t, v);
  }

  // ----- Octets in memory -----

  /** The octets of a word are its digits in base 256, and it lies in memory as the machine reads it. */
  lemma OctetsAndMemory(order: ByteOrder, x: uint32)
    ensures InPlaces(Octets(x)) == x
    ensures var m := Stored32(order, x);
            x == if order == BigEndian then InPlaces(m) else InPlaces([m[3], m[2], m[1], m[0]])
  {
    OfOctetsRoundTrip(x);
  }
}
