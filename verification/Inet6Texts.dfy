/** The forms of a hexlet, printed addresses, and the choice between IPv4 and IPv6. */
module Inet6Texts {
  import opened Machine
  import opened Text
  import opened Numbers
  import opened Inet4
  import opened Inet6
  import opened Inet6Laws
  import opened Inet6Agreement

  // ----- Hexlets -----

  /** Upper and lower case mean the same. */
  lemma CaseDoesNotMatter(t: string)
    requires IsH16(t)
    ensures IsH16(Upper(t)) && Hexlet(Upper(t)) == Hexlet(t)
  {
    UpperKeepsValue(t);
    HexletIffH16(t);
    HexletIffH16(Upper(t));
    hide Positional, Upper, IsXDigit;
  }

  /** Leading zeros mean nothing. */
  lemma LeadingZeroDoesNotMatter(t: string)
    requires IsH16(t) && |t| < 4
    ensures IsH16("0" + t) && Hexlet("0" + t) == Hexlet(t)
  {
    ZeroKeepsValue(16, t);
    HexletIffH16(t);
    HexletIffH16("0" + t);
    hide Positional, IsXDigit;
  }

  /** The shortest lower-case form. */
  function PrintHexlet(v: uint16): (t: string)
    ensures AllDigits(16, t) && Positional(16, t) == v
  {
    PrintIn(16, v)
  }

  lemma PrintedHexletLength(v: uint16)
    ensures 1 <= |PrintHexlet(v)| <= 4
  {
    hide PrintIn;
    OneMoreDigit(16, v);
    OneMoreDigit(16, v / 16);
    OneMoreDigit(16, v / 16 / 16);
    OneMoreDigit(16, v / 16 / 16 / 16);
  }

  lemma PrintedHexlet(v: uint16)
    ensures IsH16(PrintHexlet(v)) && Hexlet(PrintHexlet(v)) == v
  {
    hide PrintHexlet, Positional;
    PrintedHexletLength(v);
  }

  /** An address written out in eight groups. */
  function PrintAll(v: seq<uint16>): Address {
    Whole(seq(|v|, k requires 0 <= k < |v| => PrintHexlet(v[k])), None)
  }

  /** Every address survives printing and parsing. */
  lemma PrintThenParse(v: seq<uint16>)
    requires |v| == 8
    ensures Result(Spell(PrintAll(v))) == Some(v)
  {
    var a := PrintAll(v);
    forall k | 0 <= k < 8
      ensures IsH16(a.groups[k]) && Hexlet(a.groups[k]) == v[k]
    {
      PrintedHexlet(v[k]);
    }
    hide PrintHexlet, IsH16, Hexlet, Spell, Result;
    assert Meaning(a) == v;
    HexletsAreRead(a);
  }

  // ----- IPv4 or IPv6 -----

  lemma NoColonNoInet6(s: string)
    requires Free(s, ':')
    ensures ParseTree(s) == None
  {
    hide Hexlet, CanonicalFrom;
    assert s[0..|s|] == s;
    TokenEndIs(s, 0, |s|, ':');
    assert ParseItems(s, |s|, 1, false, StrayAfterGroup(s, 0)) == None;
  }

  lemma PartHasNoColon(maxValue: uint32, t: string)
    requires PermissivePart(maxValue, t) >= 0
    ensures Free(t, ':')
  {
    hide Positional;
    if |t| >= 2 && t[0] == '0' && ToUpper(t[1]) == 'X' {
      DigitsHaveNoColon(16, t, 2);
    } else if |t| >= 2 && t[0] == '0' && IsDigit(t[1]) && t[1] != '0' {
      DigitsHaveNoColon(8, t, 1);
    } else {
      DigitsHaveNoColon(10, t, 0);
    }
  }

  lemma DigitsHaveNoColon(base: Radix, t: string, from: nat)
    requires from <= |t| && AllDigits(base, t[from..]) && Free(t[..from], ':')
    ensures Free(t, ':')
  {
    forall k | 0 <= k < |t| ensures t[k] != ':' {
      assert if k < from then t[k] == t[..from][k] else t[k] == t[from..][k - from];
    }
  }

  lemma {:induction false} JoinIsFree(parts: seq<string>, sep: char, c: char)
    requires parts != [] && c != sep
    requires forall k :: 0 <= k < |parts| ==> Free(parts[k], c)
    ensures Free(Join(parts, sep), c)
  {
    if |parts| == 1 {
    } else {
      JoinIsFree(parts[..|parts| - 1], sep, c);
    }
  }

  /** No text is an address of both kinds, so the order in which a literal is tried does not matter. */
  lemma NeverBoth(s: string)
    ensures PermissiveAddress(s).Some? ==> ParseTree(s) == None
  {
    hide PermissivePart, Pack, Split, Free, ParseTree, Join;
    if PermissiveAddress(s).Some? {
      var p := Split(s, '.');
      forall k | 0 <= k < |p| ensures Free(p[k], ':') {
        PartHasNoColon(if |p| == 1 then 0xFFFF_FFFF else 255, p[k]);
      }
      JoinSplit(s, '.');
      JoinIsFree(p, '.', ':');
      NoColonNoInet6(s);
    }
  }
}
