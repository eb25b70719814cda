/** The departures of `inet6_aton` from the IPv6address rule, as conditions on the text. */
module Inet6Exceptions {
  import opened Machine
  import opened Text
  import opened Numbers
  import opened Inet4
  import opened Inet4Laws
  import opened Inet6
  import opened Inet6Grammar
  import opened Inet6Laws
  import opened Inet6Agreement

  // ----- A lone colon -----

  predicate EndsWithLoneColon(s: string) {
    |s| >= 2 && s[|s| - 1] == ':' && s[|s| - 2] != ':'
  }

  lemma {:induction false} LoneColonPrinted(t: Tree, i: nat, gap: bool)
    requires Valid(t.items, t.tail, i, gap) && t.items != [] && !t.tail.Dotted?
    ensures EndsWithLoneColon(Print(t.items, t.tail)) <==> t.tail.Stray?
    decreases |t.items|
  {
    hide Hexlet, CanonicalAddress;
    var rest := Tree(t.items[1..], t.tail);
    if t.items[0].Group? {
      HexletDigits(t.items[0].text);
    }
    if rest.items == [] {
    } else {
      var gap' := gap || t.items[0] == Gap;
      LoneColonPrinted(rest, i + 1, gap');
      FirstPrinted(rest, i + 1, gap');
      hide Valid;
      LoneColonOfSuffix(Print(t.items, t.tail), Print(rest.items, rest.tail), t, rest);
    }
  }

  lemma LoneColonOfSuffix(p: string, q: string, t: Tree, rest: Tree)
    requires p == Print(t.items, t.tail) && q == Print(rest.items, rest.tail)
    requires t.items != [] && rest == Tree(t.items[1..], t.tail) && q != []
    requires |q| == 1 ==> q[0] != ':'
    ensures EndsWithLoneColon(p) <==> EndsWithLoneColon(q)
  {
    assert exists pre :: p == pre + q by {
      if t.items[0] == Gap {
        assert p == "::" + q;
      } else {
        assert p == (t.items[0].text + Separator(rest.items, rest.tail)) + q;
      }
    }
  }

  /** Short of an embedded address, the accepted texts that the rule refuses are those with a lone colon at the end. */
  lemma StrayIsALoneColon(s: string)
    ensures var r := ParseTree(s);
            r.Some? && !r.value.tail.Dotted? ==> (Conforms(r.value) <==> !EndsWithLoneColon(s))
  {
    hide ParseTree, Valid, Print, EndsWithLoneColon;
    var r := ParseTree(s);
    if r.Some? && !r.value.tail.Dotted? {
      ParserInvertsPrinting(s, r.value);
      NotEmpty(r.value);
      LoneColonPrinted(r.value, 0, false);
    }
  }

  // ----- The embedded address -----

  /** What stands behind the last colon before the first dot. */
  function Embedded(s: string): string {
    s[LastBefore(s, TokenEnd(s, 0, '.'), ':') + 1..]
  }

  /** What stands in front of that, with its last colon. */
  function InFront(s: string): string {
    s[..LastBefore(s, TokenEnd(s, 0, '.'), ':') + 1]
  }

  /** The printed groups in front of an embedded address. */
  function Front(items: seq<Item>): string {
    Print(items, Dotted(""))
  }

  lemma {:induction false} FrontThenText(items: seq<Item>, text: string)
    ensures Print(items, Dotted(text)) == Front(items) + text
  {
    if items != [] {
      FrontThenText(items[1..], text);
      if items[0].Group? {
        var t, sep := items[0].text, Separator(items[1..], Dotted(text));
        assert t + sep + (Front(items[1..]) + text) == t + sep + Front(items[1..]) + text;
      }
    } else {
      assert "" + text == text;
    }
  }

  lemma HexletIsFree(t: string)
    requires Hexlet(t) >= 0
    ensures t != "" && Free(t, '.') && Free(t, ':')
  {
    hide Hexlet;
    HexletDigits(t);
  }

  /** No dot in front of the embedded address, and a colon right in front of it. */
  lemma {:induction false} FrontIsPlain(items: seq<Item>, tail: Tail, i: nat, gap: bool)
    requires Valid(items, tail, i, gap)
    ensures Free(Front(items), '.')
    ensures items != [] ==> Front(items) != "" && Front(items)[|Front(items)| - 1] == ':'
    decreases |items|
  {
    hide CanonicalAddress, Hexlet;
    if items == [] {
    } else {
      FrontIsPlain(items[1..], tail, i + 1, gap || items[0] == Gap);
      if items[0].Group? {
        HexletIsFree(items[0].text);
      }
    }
  }

  lemma {:induction false} PlainIsFree(items: seq<Item>, tail: Tail, i: nat, gap: bool)
    requires Valid(items, tail, i, gap) && !tail.Dotted?
    ensures Free(Print(items, tail), '.')
    decreases |items|
  {
    hide CanonicalAddress, Hexlet;
    if items == [] {
    } else {
      PlainIsFree(items[1..], tail, i + 1, gap || items[0] == Gap);
      if items[0].Group? {
        HexletIsFree(items[0].text);
      }
    }
  }

  lemma EmbeddedIsFound(front: string, x: string)
    requires Free(front, '.') && (front != "" ==> front[|front| - 1] == ':') && CanonicalAddress(x).Some?
    ensures var s := front + x; Embedded(s) == x && InFront(s) == front && !Free(s, '.')
  {
    hide CanonicalAddress, CanonicalFrom, TokenEnd, LastBefore, Free;
    var s, n := front + x, |front|;
    assert s[n..] == x && s[..n] == front;
    ParsingAtIsParsingTheSuffix(s, n);
    DottedBeginsWithDigits(s, n);
    FirstDotIs(s, n, TokenEnd(s, n, '.'));
  }

  /** Digits up to the first dot, and a colon before them. */
  lemma FirstDotIs(s: string, n: nat, e: nat)
    requires n <= e < |s| && s[e] == '.' && Free(s[..n], '.') && (n > 0 ==> s[n - 1] == ':')
    requires forall k :: n <= k < e ==> IsDigit(s[k])
    ensures !Free(s, '.') && TokenEnd(s, 0, '.') == e && LastBefore(s, e, ':') == n - 1
  {
    hide TokenEnd, LastBefore;
    forall k | 0 <= k < e ensures s[..e][k] != '.' {
      assert k < n ==> s[k] == s[..n][k];
    }
    assert s[0..e] == s[..e];
    TokenEndIs(s, 0, e, '.');
    LastBeforeIs(s, e, n - 1, ':');
  }

  /** In an accepted text there is a dot exactly if there is an embedded address, and it stands where it is expected. */
  lemma EmbeddedAddressOfText(s: string)
    ensures var r := ParseTree(s);
            r.Some? ==>
              && (r.value.tail.Dotted? <==> !Free(s, '.'))
              && (r.value.tail.Dotted? ==> r.value.tail.text == Embedded(s) && InFront(s) == Front(r.value.items))
  {
    hide ParseTree, Print, Embedded, InFront, Free, CanonicalAddress;
    var r := ParseTree(s);
    if r.Some? {
      var t := r.value;
      ParserInvertsPrinting(s, t);
      if t.tail.Dotted? {
        FrontThenText(t.items, t.tail.text);
        FrontIsPlain(t.items, t.tail, 0, false);
        TailIsAccepted(t.items, t.tail, 0, false);
        hide Valid, Front;
        EmbeddedIsFound(Front(t.items), t.tail.text);
      } else {
        PlainIsFree(t.items, t.tail, 0, false);
      }
    }
  }

  lemma {:induction false} TailIsAccepted(items: seq<Item>, tail: Tail, i: nat, gap: bool)
    requires Valid(items, tail, i, gap) && tail.Dotted?
    ensures CanonicalAddress(tail.text).Some?
    decreases |items|
  {
    hide CanonicalAddress, Hexlet;
    if items == [] {
    } else {
      TailIsAccepted(items[1..], tail, i + 1, gap || items[0] == Gap);
    }
  }

  /** A text without a dot does not end in a lone colon; one with a dot ends in an IPv4address. */
  predicate ConformingText(s: string) {
    if Free(s, '.') then !EndsWithLoneColon(s) else IsIPv4address(Embedded(s))
  }

  /** Which accepted texts the rule accepts. */
  lemma ConformsByText(s: string)
    ensures var r := ParseTree(s); r.Some? ==> (Conforms(r.value) <==> ConformingText(s))
  {
    hide ParseTree, IsIPv4address, Free, EndsWithLoneColon, Embedded, InFront;
    EmbeddedAddressOfText(s);
    StrayIsALoneColon(s);
  }

  // ----- The lost end -----

  /** How many runs of other characters than colons there are; `start` tells whether one may begin right away. */
  function Runs(s: string, start: bool): nat {
    if s == "" then 0 else (if start && s[0] != ':' then 1 else 0) + Runs(s[1..], s[0] == ':')
  }

  /** Where the first two adjacent colons are; the length of the text if there are none. */
  function FirstDouble(s: string): (k: nat)
    ensures k <= |s| && (k < |s| ==> k + 2 <= |s| && s[k] == s[k + 1] == ':')
  {
    if |s| < 2 then |s| else if s[0] == s[1] == ':' then 0 else 1 + FirstDouble(s[1..])
  }

  /** Nothing but zeros and separators. */
  predicate OnlyZeros(s: string) {
    forall k :: 0 <= k < |s| ==> s[k] == '0' || s[k] == ':' || s[k] == '.'
  }

  /** An embedded address behind a `::` and exactly five groups, and something other than zeros behind the `::`. */
  predicate LosesEndText(s: string) {
    var front := InFront(s);
    var k := FirstDouble(front);
    !Free(s, '.') && k < |front| && Runs(front, true) == 5 && !OnlyZeros(s[k + 2..])
  }

  lemma {:induction false} RunsInside(t: string, u: string)
    requires Free(t, ':')
    ensures Runs(t + u, false) == Runs(u, false)
  {
    if t == "" {
      assert t + u == u;
    } else {
      assert (t + u)[1..] == t[1..] + u;
      RunsInside(t[1..], u);
    }
  }

  lemma RunsOfGroup(t: string, u: string)
    requires t != "" && Free(t, ':') && u != "" && u[0] == ':'
    ensures Runs(t + u, true) == 1 + Runs(u[1..], true)
  {
    assert (t + u)[1..] == t[1..] + u;
    RunsInside(t[1..], u);
  }

  lemma RunsOfGap(u: string)
    ensures Runs("::" + u, true) == Runs(u, true) && Runs(":" + u, true) == Runs(u, true)
  {
    assert ("::" + u)[1..] == ":" + u && (":" + u)[1..] == u;
  }

  /** Each run of the front is a group. */
  lemma {:induction false} RunsAreGroups(items: seq<Item>, tail: Tail, i: nat, gap: bool)
    requires i <= 8 && Valid(items, tail, i, gap) && tail.Dotted?
    ensures Runs(Front(items), true) + (if GapPosition(items) >= 0 then 1 else 0) == |items|
    decreases |items|
  {
    hide CanonicalAddress, Hexlet, Runs;
    if items == [] {
      NoRuns();
    } else {
      var rest := items[1..];
      RunsAreGroups(rest, tail, i + 1, gap || items[0] == Gap);
      assert items == [items[0]] + rest;
      GapPositionCons(items[0], rest);
      if items[0] == Gap {
        ValidIsShaped(rest, tail, i + 1, true);
        RunsOfGap(Front(rest));
      } else {
        HexletIsFree(items[0].text);
        hide Valid, GapPosition;
        GroupInFront(items[0].text, rest);
      }
    }
  }

  lemma NoRuns()
    ensures Runs(Front([]), true) == 0
  {
  }

  lemma GroupInFront(t: string, rest: seq<Item>)
    requires t != "" && Free(t, ':')
    ensures Runs(Front([Group(t)] + rest), true) == 1 + Runs(Front(rest), true)
  {
    assert ([Group(t)] + rest)[1..] == rest;
    hide Runs;
    if rest != [] && rest[0] == Gap {
      var u := Front(rest[1..]);
      assert Front(rest) == "::" + u && (":" + u) == ("::" + u)[1..];
      assert Front([Group(t)] + rest) == t + ("::" + u);
      RunsOfGroup(t, "::" + u);
      RunsOfGap(u);
    } else {
      var u := Front(rest);
      assert Front([Group(t)] + rest) == t + (":" + u) && (":" + u)[1..] == u;
      RunsOfGroup(t, ":" + u);
    }
  }

  lemma {:induction false} FirstDoubleBehind(t: string, u: string)
    requires Free(t, ':')
    ensures FirstDouble(t + u) == |t| + FirstDouble(u)
  {
    if t == "" {
      assert t + u == u;
    } else {
      assert (t + u)[1..] == t[1..] + u;
      FirstDoubleBehind(t[1..], u);
    }
  }

  lemma FirstDoubleBehindColon(u: string)
    requires u != "" && u[0] != ':'
    ensures FirstDouble(":" + u) == 1 + FirstDouble(u)
  {
    assert (":" + u)[1..] == u;
  }

  /** The first two adjacent colons of the front are the `::`. */
  lemma {:induction false} DoubleIsGap(items: seq<Item>, tail: Tail, i: nat, gap: bool)
    requires i <= 8 && Valid(items, tail, i, gap) && tail.Dotted? && GapPosition(items) >= 0
    ensures var f, g := Front(items), GapPosition(items);
            var k := FirstDouble(f);
            k < |f| && f[k + 2..] == Front(items[g + 1..])
    decreases |items|
  {
    hide CanonicalAddress, Hexlet, FirstDouble;
    var rest := items[1..];
    assert items == [items[0]] + rest;
    GapPositionCons(items[0], rest);
    if items[0] == Gap {
      ValidIsShaped(rest, tail, i + 1, true);
      DoubleAtStart(Front(rest));
    } else {
      DoubleIsGap(rest, tail, i + 1, gap);
      HexletIsFree(items[0].text);
      assert items[GapPosition(items) + 1..] == rest[GapPosition(rest) + 1..];
      FirstOfFront(rest, tail, i + 1, gap);
      hide Valid, GapPosition;
      DoubleBehindGroup(items[0].text, rest, |Front(rest)| - FirstDouble(Front(rest)) - 2);
    }
  }

  lemma DoubleAtStart(u: string)
    ensures FirstDouble("::" + u) == 0 && ("::" + u)[2..] == u
  {
  }

  /** A front that does not begin with a `::` does not begin with a colon. */
  lemma FirstOfFront(items: seq<Item>, tail: Tail, i: nat, gap: bool)
    requires Valid(items, tail, i, gap) && items != []
    ensures Front(items) != "" && (items[0].Group? ==> Front(items)[0] != ':')
  {
    hide Hexlet, CanonicalAddress;
    if items[0].Group? {
      HexletIsFree(items[0].text);
    }
  }

  lemma DoubleBehindGroup(t: string, rest: seq<Item>, n: nat)
    requires n <= |Front(rest)|
    requires Free(t, ':') && rest != [] && Front(rest) != "" && (rest[0].Group? ==> Front(rest)[0] != ':')
    ensures var f, u := Front([Group(t)] + rest), Front(rest);
            |f| - FirstDouble(f) == |u| - FirstDouble(u) && |f| >= |u| && f[|f| - n..] == u[|u| - n..]
  {
    hide FirstDouble, Front, Free;
    var f, u := Front([Group(t)] + rest), Front(rest);
    FrontOfGroup(t, rest);
    if rest[0] == Gap {
      FirstDoubleBehind(t, u);
      EndBehind(t, u, n);
    } else {
      FirstDoubleBehindColon(u);
      FirstDoubleBehind(t, ":" + u);
      EndBehind(t, ":" + u, n);
      EndBehind(":", u, n);
    }
  }

  lemma FrontOfGroup(t: string, rest: seq<Item>)
    requires rest != []
    ensures Front([Group(t)] + rest) == t + (if rest[0] == Gap then Front(rest) else ":" + Front(rest))
  {
    assert ([Group(t)] + rest)[1..] == rest;
  }

  lemma EndBehind(t: string, u: string, n: nat)
    requires n <= |u|
    ensures (t + u)[|t + u| - n..] == u[|u| - n..]
  {
  }

  // ----- Zeros -----

  lemma {:induction false} ZeroValue(base: Radix, t: string)
    requires AllDigits(base, t)
    ensures Positional(base, t) == 0 <==> forall k :: 0 <= k < |t| ==> t[k] == '0'
  {
    if t == "" {
    } else {
      LastDigit(base, t);
      ZeroValue(base, t[..|t| - 1]);
    }
  }

  lemma ZeroHexlet(t: string)
    requires Hexlet(t) >= 0
    ensures Hexlet(t) == 0 <==> OnlyZeros(t)
  {
    HexletIsFree(t);
    ZeroValue(16, t);
    hide Positional;
  }

  lemma ZerosOfBoth(s: string, t: string)
    ensures OnlyZeros(s + t) <==> OnlyZeros(s) && OnlyZeros(t)
  {
    assert forall k :: 0 <= k < |s| ==> (s + t)[k] == s[k];
    assert forall k :: 0 <= k < |t| ==> (s + t)[|s| + k] == t[k];
  }

  lemma {:induction false} ZerosOfParts(parts: seq<string>)
    requires parts != []
    ensures OnlyZeros(Join(parts, '.')) <==> forall k :: 0 <= k < |parts| ==> OnlyZeros(parts[k])
  {
    hide OnlyZeros;
    if |parts| == 1 {
    } else {
      var front, last := parts[..|parts| - 1], parts[|parts| - 1];
      ZerosOfParts(front);
      DotIsZero();
      ZerosOfBoth(Join(front, '.') + ".", last);
      ZerosOfBoth(Join(front, '.'), ".");
      assert forall k :: 0 <= k < |front| ==> front[k] == parts[k];
    }
  }

  lemma DotIsZero()
    ensures OnlyZeros(".") && OnlyZeros(":") && OnlyZeros("::") && OnlyZeros("")
  {
  }

  lemma ZeroOctet(t: string)
    requires IsDecOctet(t)
    ensures CanonicalOctet(t) == 0 <==> OnlyZeros(t)
  {
    OctetIffDecOctet(t);
    hide CanonicalOctet, Positional;
    ZeroValue(10, t);
  }

  lemma ZeroAddress(x: string)
    requires IsIPv4address(x)
    ensures CanonicalAddress(x).Some? && (CanonicalAddress(x).value == 0 <==> OnlyZeros(x))
  {
    hide CanonicalOctet, IsDecOctet, OnlyZeros, Join, Split, CanonicalAddress;
    var p := Split(x, '.');
    FourZeros(p);
    JoinSplit(x, '.');
    ZerosOfParts(p);
    FourOctetsValue(x);
  }

  lemma FourOctetsValue(x: string)
    requires IsIPv4address(x)
    ensures var p := Split(x, '.');
            && CanonicalAddress(x).Some?
            && (CanonicalAddress(x).value == 0 <==>
                CanonicalOctet(p[0]) == CanonicalOctet(p[1]) == CanonicalOctet(p[2]) == CanonicalOctet(p[3]) == 0)
  {
    hide CanonicalOctet, IsDecOctet, Split;
    var p := Split(x, '.');
    OctetIffDecOctet(p[0]);
    OctetIffDecOctet(p[1]);
    OctetIffDecOctet(p[2]);
    OctetIffDecOctet(p[3]);
  }

  lemma FourZeros(p: seq<string>)
    requires |p| == 4 && IsDecOctet(p[0]) && IsDecOctet(p[1]) && IsDecOctet(p[2]) && IsDecOctet(p[3])
    ensures (forall k :: 0 <= k < |p| ==> OnlyZeros(p[k]))
            <==> CanonicalOctet(p[0]) == CanonicalOctet(p[1]) == CanonicalOctet(p[2]) == CanonicalOctet(p[3]) == 0
  {
    hide CanonicalOctet, IsDecOctet, OnlyZeros;
    ZeroOctet(p[0]);
    ZeroOctet(p[1]);
    ZeroOctet(p[2]);
    ZeroOctet(p[3]);
  }

  /** Behind the `::` all groups and the embedded address are zero exactly if the text shows only zeros there. */
  lemma {:induction false} ZerosBehind(items: seq<Item>, x: string)
    requires forall k :: 0 <= k < |items| ==> items[k].Group? && Hexlet(items[k].text) >= 0
    ensures OnlyZeros(Print(items, Dotted(x)))
            <==> OnlyZeros(x) && forall k :: 0 <= k < |items| ==> ItemValue(items[k]) == 0
    decreases |items|
  {
    hide OnlyZeros, Hexlet;
    if items == [] {
    } else {
      var t, rest := items[0].text, items[1..];
      ZerosBehind(rest, x);
      assert forall k :: 0 < k < |items| ==> items[k] == rest[k - 1];
      ZeroHexlet(t);
      DotIsZero();
      var sep := Separator(rest, Dotted(x));
      ZerosOfBoth(t + sep, Print(rest, Dotted(x)));
      ZerosOfBoth(t, sep);
    }
  }

  lemma HalvesOfZero(x: uint32)
    ensures Halves(x)[0] == 0 && Halves(x)[1] == 0 <==> x == 0
  {
  }

  lemma SlotsAre(t: Tree)
    requires t.tail.Dotted? && CanonicalAddress(t.tail.text).Some?
    ensures var v, n, h := Slots(t), |t.items|, Halves(CanonicalAddress(t.tail.text).value);
            && |v| == n + 2 && v[n] == h[0] && v[n + 1] == h[1]
            && forall k :: 0 <= k < n ==> v[k] == ItemValue(t.items[k])
  {
    hide CanonicalAddress, ItemValue;
  }

  lemma SomeSlotBehind(t: Tree, g: nat)
    requires g < |t.items| && t.tail.Dotted? && CanonicalAddress(t.tail.text).Some?
    ensures (exists k :: g < k < |Slots(t)| && Slots(t)[k] != 0)
            <==> CanonicalAddress(t.tail.text).value != 0 || exists k :: g < k < |t.items| && ItemValue(t.items[k]) != 0
  {
    hide CanonicalAddress, ItemValue, Slots, Halves;
    var v, n, x := Slots(t), |t.items|, CanonicalAddress(t.tail.text).value;
    SlotsAre(t);
    HalvesOfZero(x);
    if x != 0 {
      assert v[n] != 0 || v[n + 1] != 0;
    }
    if k :| g < k < n && ItemValue(t.items[k]) != 0 {
      assert v[k] != 0;
    }
  }

  /** The slots behind the `::` are zero exactly if the text shows only zeros there. */
  lemma SlotsBehind(t: Tree)
    requires Valid(t.items, t.tail, 0, false) && GapPosition(t.items) >= 0
    requires t.tail.Dotted? && IsIPv4address(t.tail.text)
    ensures (exists k :: GapPosition(t.items) < k < |Slots(t)| && Slots(t)[k] != 0)
            <==> !OnlyZeros(Print(t.items[GapPosition(t.items) + 1..], t.tail))
  {
    ValidIsShaped(t.items, t.tail, 0, false);
    ValidGroupsRead(t.items, t.tail, 0, false);
    hide GapPosition, Valid, Print, OnlyZeros, IsIPv4address, Hexlet, CanonicalAddress, ItemValue, Slots;
    var g, x := GapPosition(t.items), t.tail.text;
    var behind := t.items[g + 1..];
    ItemsBehind(t.items, g, behind);
    ZerosBehind(behind, x);
    ZeroAddress(x);
    SomeSlotBehind(t, g);
  }

  lemma ItemsBehind(items: seq<Item>, g: nat, behind: seq<Item>)
    requires g < |items| && behind == items[g + 1..]
    ensures (exists k :: g < k < |items| && ItemValue(items[k]) != 0)
            <==> !forall k :: 0 <= k < |behind| ==> ItemValue(behind[k]) == 0
  {
    hide ItemValue;
    if k :| g < k < |items| && ItemValue(items[k]) != 0 {
      assert behind[k - g - 1] == items[k];
    }
    assert forall k :: 0 <= k < |behind| ==> behind[k] == items[g + 1 + k];
  }

  lemma {:induction false} ValidGroupsRead(items: seq<Item>, tail: Tail, i: nat, gap: bool)
    requires Valid(items, tail, i, gap)
    ensures forall k :: 0 <= k < |items| && items[k].Group? ==> Hexlet(items[k].text) >= 0
    decreases |items|
  {
    hide Hexlet, CanonicalAddress;
    if items == [] {
    } else {
      ValidGroupsRead(items[1..], tail, i + 1, gap || items[0] == Gap);
      assert forall k :: 0 < k < |items| ==> items[k] == items[1..][k - 1];
    }
  }

  /** Which addresses lose their end, among the accepted texts that the rule accepts. */
  lemma LosesEndByText(s: string)
    ensures var r := ParseTree(s); r.Some? && Conforms(r.value) ==> (LosesItsEnd(r.value) <==> LosesEndText(s))
  {
    hide ParseTree, LosesItsEnd, LosesEndText, IsIPv4address;
    EmbeddedAddressOfText(s);
    var r := ParseTree(s);
    if r.Some? && Conforms(r.value) {
      var t := r.value;
      hide Valid, Print, Embedded, InFront;
      ParserInvertsPrinting(s, t);
      if t.tail.Dotted? {
        LosesEndOfDotted(s, t);
      } else {
        DotsDecide(s, t);
      }
    }
  }

  lemma DotsDecide(s: string, t: Tree)
    requires Free(s, '.') && !t.tail.Dotted?
    ensures !LosesItsEnd(t) && !LosesEndText(s)
  {
    hide InFront;
  }

  lemma LosesEndOfDotted(s: string, t: Tree)
    requires Valid(t.items, t.tail, 0, false) && Print(t.items, t.tail) == s && t.tail.Dotted?
    requires IsIPv4address(t.tail.text) && InFront(s) == Front(t.items) && !Free(s, '.')
    ensures LosesItsEnd(t) <==> LosesEndText(s)
  {
    hide Valid, GapPosition, IsIPv4address, InFront, OnlyZeros, Front, Runs, FirstDouble, TailValues;
    RunsAreGroups(t.items, t.tail, 0, false);
    ValidIsShaped(t.items, t.tail, 0, false);
    assert |Slots(t)| == |t.items| + 2;
    if GapPosition(t.items) >= 0 {
      DoubleIsGap(t.items, t.tail, 0, false);
      BehindTheDouble(t);
      SlotsBehind(t);
    }
  }

  lemma BehindTheDouble(t: Tree)
    requires t.tail.Dotted? && GapPosition(t.items) >= 0
    requires var f, behind := Front(t.items), t.items[GapPosition(t.items) + 1..];
             FirstDouble(f) < |f| && f[FirstDouble(f) + 2..] == Front(behind)
    ensures var p, k := Print(t.items, t.tail), FirstDouble(Front(t.items));
            k + 2 <= |p| && p[k + 2..] == Print(t.items[GapPosition(t.items) + 1..], t.tail)
  {
    hide GapPosition, Front, Print, FirstDouble;
    var f, behind, x := Front(t.items), t.items[GapPosition(t.items) + 1..], t.tail.text;
    FrontThenText(t.items, x);
    FrontThenText(behind, x);
    assert (f + x)[FirstDouble(f) + 2..] == f[FirstDouble(f) + 2..] + x;
  }

  // ----- Parser and rule, by the text -----

  /** The rule accepts a text exactly if the parser does and the text is none of the first two departures. */
  lemma AcceptedVersusRule(s: string)
    ensures IsIPv6address(s) <==> Result(s).Some? && ConformingText(s)
  {
    hide ParseTree, Conforms, ConformingText, WellFormed, Spell;
    ConformingTrees(s);
    ConformsByText(s);
  }

  /** On an accepted text parser and rule agree exactly if it is a conforming one that keeps its end. */
  lemma AcceptedAgreement(s: string)
    ensures (forall v :: Result(s) == Some(v) <==> Denotes(s, v))
            <==> (Result(s).Some? ==> ConformingText(s) && !LosesEndText(s))
  {
    hide ParseTree, Denotes, Denote, Conforms, LosesItsEnd, ConformingText, LosesEndText;
    TreeVersusRule(s);
    ConformsByText(s);
    LosesEndByText(s);
  }

  /** An embedded address is worth its two hexlets, except where the end of the address is lost. */
  lemma EmbeddingEqualsHexlets(a: Address, high: string, low: string)
    ensures WellFormed(a) && EndsIn(a, high, low) ==>
              (Result(Spell(a)) == Result(Spell(WithHexlets(a, high, low))) <==> !LosesEndText(Spell(a)))
  {
    hide ParseTree, Denote, Intended, WellFormed, Meaning, Spell, WithHexlets, LosesItsEnd, LosesEndText, Slots,
      Hexlet, TreeOf, EndsIn, Conforms;
    if WellFormed(a) && EndsIn(a, high, low) {
      AcceptsTheRule(a);
      MeaningIsIntended(a);
      ComputedVersusIntended(TreeOf(a));
      ConformingTree(a);
      LosesEndByText(Spell(a));
      SameMeaning(a, high, low);
      HexletsAreRead(WithHexlets(a, high, low));
    }
  }
}
