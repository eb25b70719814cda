/** `inet6_aton` against the IPv6address rule of RFC 3986, section 3.2.2, and section 2.2 of RFC 4291. */
module Inet6Laws {
  import opened Machine
  import opened Text
  import opened Numbers
  import opened Inet4
  import opened Inet4Laws
  import opened Inet6
  import opened Inet6Grammar

  // ----- The IPv6address rule -----

  /**
   The nine alternatives of the rule: eight 16-bit pieces, or a `::` that replaces at least one of them. The last
   two pieces may be written as an IPv4address.
   */
  datatype Address =
    | Whole(groups: seq<string>, v4: Option<string>)
    | Compressed(left: seq<string>, right: seq<string>, v4: Option<string>)

  predicate IsH16(t: string) {
    1 <= |t| <= 4 && forall k :: 0 <= k < |t| ==> IsXDigit(t[k])
  }

  predicate AllH16(groups: seq<string>) {
    forall k :: 0 <= k < |groups| ==> IsH16(groups[k])
  }

  function Width(v4: Option<string>): nat {
    if v4.Some? then 2 else 0
  }

  predicate WellFormed(a: Address) {
    && (a.v4.Some? ==> IsIPv4address(a.v4.value))
    && match a
       case Whole(groups, v4) => AllH16(groups) && |groups| + Width(v4) == 8
       case Compressed(left, right, v4) => AllH16(left) && AllH16(right) && |left| + |right| + Width(v4) <= 7
  }

  /** The n-th alternative; from the second on, 9 - n pieces follow the `::`, and at most n - 2 precede it. */
  predicate Alternative(n: nat, a: Address) {
    && (a.v4.Some? ==> IsIPv4address(a.v4.value))
    && match a
       case Whole(groups, v4) => n == 1 && AllH16(groups) && |groups| + Width(v4) == 8
       case Compressed(left, right, v4) =>
         && 2 <= n <= 9 && AllH16(left) && AllH16(right)
         && |right| + Width(v4) == 9 - n && |left| <= n - 2
  }

  /** A well-formed address is one of the nine alternatives. */
  lemma NineAlternatives(a: Address)
    ensures WellFormed(a) <==> exists n :: Alternative(n, a)
  {
    hide IsIPv4address, AllH16;
    if WellFormed(a) {
      var n := match a
        case Whole(_, _) => 1
        case Compressed(_, right, v4) => 9 - |right| - Width(v4);
      assert Alternative(n, a);
    }
  }

  function WithV4(groups: seq<string>, v4: Option<string>): seq<string> {
    if v4.Some? then groups + [v4.value] else groups
  }

  function JoinColons(groups: seq<string>): string {
    if groups == [] then "" else Join(groups, ':')
  }

  function Spell(a: Address): string {
    match a
    case Whole(groups, v4) => JoinColons(WithV4(groups, v4))
    case Compressed(left, right, v4) => JoinColons(left) + "::" + JoinColons(WithV4(right, v4))
  }

  function Pieces(groups: seq<string>): (v: seq<uint16>)
    ensures |v| == |groups|
  {
    Values(Groups(groups))
  }

  /** The eight pieces that the address denotes. */
  function Meaning(a: Address): seq<uint16> {
    match a
    case Whole(groups, v4) => Pieces(groups) + TailValues(TailOf(v4))
    case Compressed(left, right, v4) =>
      var n := |left| + |right| + Width(v4);
      Pieces(left) + Zeros(if n < 8 then 8 - n else 0) + Pieces(right) + TailValues(TailOf(v4))
  }

  /** s is an IPv6address. */
  ghost predicate IsIPv6address(s: string) {
    exists a :: WellFormed(a) && Spell(a) == s
  }

  /** s is an IPv6address that denotes v. */
  ghost predicate Denotes(s: string, v: seq<uint16>) {
    exists a :: WellFormed(a) && Spell(a) == s && Meaning(a) == v
  }

  // ----- The trees of well-formed addresses -----

  function Groups(texts: seq<string>): (items: seq<Item>)
    ensures |items| == |texts|
  {
    seq(|texts|, k requires 0 <= k < |texts| => Group(texts[k]))
  }

  function TailOf(v4: Option<string>): Tail {
    if v4.Some? then Dotted(v4.value) else Nothing
  }

  function TreeOf(a: Address): Tree {
    match a
    case Whole(groups, v4) => Tree(Groups(groups), TailOf(v4))
    case Compressed(left, right, v4) => Tree(Groups(left) + [Gap] + Groups(right), TailOf(v4))
  }

  lemma {:induction false} PrintGroups(texts: seq<string>, rest: seq<Item>, tail: Tail)
    requires texts != []
    ensures Print(Groups(texts) + rest, tail) == Join(texts, ':') + (Separator(rest, tail) + Print(rest, tail))
  {
    hide Print, Separator, Join;
    var others := Groups(texts[1..]) + rest;
    assert Groups(texts) + rest == [Group(texts[0])] + others;
    PrintGroup(texts[0], Tree(others, tail));
    JoinOne(texts[0], ':');
    if |texts| == 1 {
      assert texts == [texts[0]] && others == rest;
    } else {
      PrintGroups(texts[1..], rest, tail);
      assert texts == [texts[0]] + texts[1..];
      JoinCons(texts[0], texts[1..], ':');
      SeparatorBeforeGroup(others, tail);
    }
  }

  lemma SeparatorBeforeGroup(items: seq<Item>, tail: Tail)
    requires items != [] && items[0].Group?
    ensures Separator(items, tail) == ":"
  {
  }

  lemma PrintLast(texts: seq<string>, v4: Option<string>)
    ensures Print(Groups(texts), TailOf(v4)) == JoinColons(WithV4(texts, v4))
  {
    if texts != [] {
      PrintGroups(texts, [], TailOf(v4));
      assert Groups(texts) + [] == Groups(texts);
      assert v4.Some? ==> WithV4(texts, v4)[..|texts|] == texts;
    }
  }

  lemma SpellIsPrint(a: Address)
    ensures Print(TreeOf(a).items, TreeOf(a).tail) == Spell(a)
  {
    hide Join, Print;
    match a
    case Whole(groups, v4) =>
      PrintLast(groups, v4);
    case Compressed(left, right, v4) =>
      PrintLast(right, v4);
      PrintGap(Groups(right), TailOf(v4));
      assert Groups(left) + [Gap] + Groups(right) == Groups(left) + ([Gap] + Groups(right));
      if left == [] {
        assert Groups(left) + ([Gap] + Groups(right)) == [Gap] + Groups(right);
      } else {
        PrintGroups(left, [Gap] + Groups(right), TailOf(v4));
      }
  }

  lemma PrintGap(rest: seq<Item>, tail: Tail)
    ensures Print([Gap] + rest, tail) == "::" + Print(rest, tail)
    ensures Separator([Gap] + rest, tail) == ""
  {
    assert ([Gap] + rest)[1..] == rest;
  }

  /** Four hexadecimal digits always fit into 16 bits. */
  lemma HexletIffH16(t: string)
    ensures Hexlet(t) >= 0 <==> IsH16(t)
  {
    if IsH16(t) {
      HexBound(t);
      PowersOf16();
    }
    hide Positional, Power16;
  }

  function Power16(n: nat): nat {
    if n == 0 then 1 else 16 * Power16(n - 1)
  }

  lemma {:induction false} HexBound(t: string)
    requires AllDigits(16, t)
    ensures Positional(16, t) < Power16(|t|)
  {
    if t == [] {
    } else {
      var front := t[..|t| - 1];
      assert IsValidDigit(16, t[|t| - 1]) && AllDigits(16, front);
      HexBound(front);
      assert t[..|front| + 1] == t;
      hide AllDigits, ConvertDigit, Positional, IsValidDigit;
      NextDigit(16, t, |front|);
    }
  }

  lemma PowersOf16()
    ensures Power16(1) == 0x10 && Power16(2) == 0x100 && Power16(3) == 0x1000 && Power16(4) == 0x1_0000
  {
    assert Power16(2) == 16 * Power16(1) && Power16(3) == 16 * Power16(2);
  }

  lemma {:induction false} ValidGroups(texts: seq<string>, rest: seq<Item>, tail: Tail, i: nat, gap: bool)
    requires AllH16(texts) && i + |texts| <= 8 && Valid(rest, tail, i + |texts|, gap)
    ensures Valid(Groups(texts) + rest, tail, i, gap)
    decreases |texts|
  {
    hide Hexlet, IsH16;
    if texts == [] {
      assert Groups(texts) + rest == rest;
    } else {
      var others := Groups(texts[1..]) + rest;
      ValidGroups(texts[1..], rest, tail, i + 1, gap);
      assert Groups(texts) + rest == [Group(texts[0])] + others;
      assert ([Group(texts[0])] + others)[1..] == others;
      HexletIffH16(texts[0]);
    }
  }

  lemma V4IsAccepted(a: Address)
    requires WellFormed(a) && a.v4.Some?
    ensures CanonicalAddress(a.v4.value).Some?
  {
    ParseThenPrint(a.v4.value);
  }

  lemma TreeIsValid(a: Address)
    requires WellFormed(a)
    ensures Valid(TreeOf(a).items, TreeOf(a).tail, 0, false)
  {
    hide CanonicalAddress, IsIPv4address, AllH16;
    if a.v4.Some? {
      V4IsAccepted(a);
    }
    match a
    case Whole(groups, v4) =>
      ValidGroups(groups, [], TailOf(v4), 0, false);
      assert Groups(groups) + [] == Groups(groups);
    case Compressed(left, right, v4) =>
      SidesAreValid(left, right, TailOf(v4));
  }

  lemma SidesAreValid(left: seq<string>, right: seq<string>, tail: Tail)
    requires AllH16(left) && AllH16(right) && |left| + |right| + 1 <= (if tail.Dotted? then 6 else 8)
    requires !tail.Stray? && (tail.Dotted? ==> CanonicalAddress(tail.text).Some?)
    ensures Valid(Groups(left) + [Gap] + Groups(right), tail, 0, false)
  {
    hide CanonicalAddress, AllH16;
    ValidGroups(right, [], tail, |left| + 1, true);
    assert Groups(right) + [] == Groups(right);
    assert ([Gap] + Groups(right))[1..] == Groups(right);
    ValidGroups(left, [Gap] + Groups(right), tail, 0, false);
    assert Groups(left) + [Gap] + Groups(right) == Groups(left) + ([Gap] + Groups(right));
  }

  /** Every IPv6address is accepted, and read as the groups it is made of. */
  lemma AcceptsTheRule(a: Address)
    requires WellFormed(a)
    ensures ParseTree(Spell(a)) == Some(TreeOf(a))
  {
    TreeIsValid(a);
    SpellIsPrint(a);
    hide ParseTree, Valid, Print, Spell;
    ParserInvertsPrinting(Spell(a), TreeOf(a));
  }

  // ----- Back from the tree to the address -----

  function Texts(items: seq<Item>): (texts: seq<string>)
    ensures |texts| == |items|
  {
    seq(|items|, k requires 0 <= k < |items| => if items[k].Group? then items[k].text else "")
  }

  function AddressOf(t: Tree): Address {
    var v4 := if t.tail.Dotted? then Some(t.tail.text) else None;
    var g := GapPosition(t.items);
    if g < 0 then Whole(Texts(t.items), v4) else Compressed(Texts(t.items[..g]), Texts(t.items[g + 1..]), v4)
  }

  /** The trees that the rule allows: no stray colon, and a real IPv4address at the end if there is one. */
  predicate Conforms(t: Tree) {
    !t.tail.Stray? && (t.tail.Dotted? ==> IsIPv4address(t.tail.text))
  }

  /** From a valid tree on: no second `::`, only H16 groups, and room for all of it. */
  ghost predicate Shaped(items: seq<Item>, tail: Tail, i: nat, gap: bool) {
    && (forall k :: 0 <= k < |items| ==> items[k].Group? ==> IsH16(items[k].text))
    && (gap ==> GapPosition(items) < 0)
    && (forall k :: 0 <= k < |items| && items[k] == Gap ==> k == GapPosition(items))
    && i + |items| + |TailValues(tail)| <= 8
    && (gap || GapPosition(items) >= 0 || i + |items| + |TailValues(tail)| == 8)
  }

  lemma {:induction false} GapPositionCons(item: Item, rest: seq<Item>)
    ensures GapPosition([item] + rest)
            == if GapPosition(rest) >= 0 then GapPosition(rest) + 1 else if item == Gap then 0 else -1
  {
    var all := [item] + rest;
    if rest == [] {
      assert all[..0] == [];
    } else if rest[|rest| - 1] != Gap {
      assert all[..|all| - 1] == [item] + rest[..|rest| - 1];
      GapPositionCons(item, rest[..|rest| - 1]);
    }
  }

  lemma {:induction false} ValidIsShaped(items: seq<Item>, tail: Tail, i: nat, gap: bool)
    requires i <= 8 && Valid(items, tail, i, gap)
    ensures Shaped(items, tail, i, gap)
    decreases |items|
  {
    hide TailValues, CanonicalAddress, Hexlet, IsH16;
    if items == [] {
    } else {
      var rest := items[1..];
      assert items == [items[0]] + rest;
      ValidIsShaped(rest, tail, i + 1, gap || items[0] == Gap);
      GapPositionCons(items[0], rest);
      if items[0].Group? {
        HexletIffH16(items[0].text);
      }
      hide GapPosition, Valid;
      ShapedCons(items[0], rest, tail, i, gap);
    }
  }

  lemma ShapedCons(item: Item, rest: seq<Item>, tail: Tail, i: nat, gap: bool)
    requires Shaped(rest, tail, i + 1, gap || item == Gap)
    requires item.Group? ==> IsH16(item.text)
    requires gap ==> item != Gap
    ensures Shaped([item] + rest, tail, i, gap)
  {
    hide GapPosition, TailValues, IsH16;
    GapPositionCons(item, rest);
    var all := [item] + rest;
    forall k | 0 <= k < |all|
      ensures all[k].Group? ==> IsH16(all[k].text)
      ensures all[k] == Gap ==> k == GapPosition(all)
    {
      assert k > 0 ==> all[k] == rest[k - 1];
    }
  }

  lemma RestoresTree(t: Tree)
    requires Valid(t.items, t.tail, 0, false) && Conforms(t)
    ensures WellFormed(AddressOf(t)) && TreeOf(AddressOf(t)) == t
  {
    ValidIsShaped(t.items, t.tail, 0, false);
    hide GapPosition, Valid, IsIPv4address, IsH16, AllH16, Texts, TailValues;
    if GapPosition(t.items) < 0 {
      RestoresGroups(t.items);
    } else {
      RestoresSides(t, GapPosition(t.items));
    }
  }

  lemma RestoresSides(t: Tree, g: nat)
    requires Shaped(t.items, t.tail, 0, false) && g == GapPosition(t.items)
    ensures var left, right := t.items[..g], t.items[g + 1..];
            && Groups(Texts(left)) + [Gap] + Groups(Texts(right)) == t.items
            && AllH16(Texts(left)) && AllH16(Texts(right))
  {
    hide GapPosition, IsH16, AllH16, Texts, Groups, TailValues;
    var left, right := t.items[..g], t.items[g + 1..];
    assert forall k :: 0 <= k < |right| ==> right[k] == t.items[g + 1 + k];
    RestoresGroups(left);
    RestoresGroups(right);
    assert t.items == left + [Gap] + right;
  }

  lemma RestoresGroups(items: seq<Item>)
    requires forall k :: 0 <= k < |items| ==> items[k].Group? && IsH16(items[k].text)
    ensures Groups(Texts(items)) == items && AllH16(Texts(items))
  {
    hide IsH16;
  }

  /** The parser accepts more than the rule: exactly the trees that do not conform. */
  lemma ConformingTrees(s: string)
    ensures IsIPv6address(s) <==> ParseTree(s).Some? && Conforms(ParseTree(s).value)
  {
    hide ParseTree, Valid, Print, Spell, IsIPv4address, WellFormed;
    if a :| WellFormed(a) && Spell(a) == s {
      AcceptsTheRule(a);
      ConformingTree(a);
    }
    if ParseTree(s).Some? && Conforms(ParseTree(s).value) {
      var t := ParseTree(s).value;
      ParserInvertsPrinting(s, t);
      RestoresTree(t);
      SpellIsPrint(AddressOf(t));
    }
  }

  lemma ConformingTree(a: Address)
    requires WellFormed(a)
    ensures Conforms(TreeOf(a))
  {
    hide IsIPv4address, IsH16;
  }
}
