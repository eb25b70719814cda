/** What each accepted IPv6 text is read as: by its numerals and their places, with the departures from the rule. */
module Inet6Values {
  import opened Machine
  import opened Text
  import opened Numbers
  import opened Numerals
  import opened Inet4
  import opened Inet4Laws
  import opened Inet6
  import opened Inet6Grammar
  import opened Inet6Laws
  import opened Inet6Agreement
  import opened Inet6Exceptions
  import opened Inet6Language

  // ----- Groups -----

  /** A group is a hexadecimal numeral of one to four digits, and has its value. */
  lemma HexletIsNumeral(t: string, v: int)
    ensures Hexlet(t) == v && v >= 0 <==> Numeral(16, t, v) && |t| <= 4
  {
    hide Numeral, Positional;
    ComponentIsNumeral(16, 0xFFFF, 4, t, v);
    HexletIffH16(t);
    NumeralIs(16, t, v);
  }

  // ----- Addresses of the rule -----

  /** The numerals of these groups are the hexlets of m from a place on. */
  ghost predicate GroupsAt(groups: seq<string>, m: seq<uint16>, from: nat) {
    && from + |groups| <= |m|
    && forall k :: 0 <= k < |groups| ==> Numeral(16, groups[k], m[from + k])
  }

  /**
   m are the eight hexlets that the address stands for: its groups in their places, zeros for the `::`, and the two
   hexlets of the IPv4address at the end.
   */
  ghost predicate StandsFor(a: Address, m: seq<uint16>) {
    && |m| == 8
    && (a.v4.Some? ==>
          var x := CanonicalAddress(a.v4.value); x.Some? && x.value as int == m[6] as int * 0x1_0000 + m[7] as int)
    && match a
       case Whole(groups, v4) => GroupsAt(groups, m, 0)
       case Compressed(left, right, v4) =>
         var from := 8 - Width(v4) - |right|;
         && |left| <= from && GroupsAt(left, m, 0) && GroupsAt(right, m, from)
         && forall k :: |left| <= k < from ==> m[k] == 0
  }

  lemma PiecesAreNumerals(groups: seq<string>, m: seq<uint16>, from: nat)
    requires AllH16(groups) && from + |groups| <= |m|
    ensures GroupsAt(groups, m, from) <==> m[from..from + |groups|] == Pieces(groups)
  {
    hide Numeral, Hexlet, IsH16;
    forall k | 0 <= k < |groups|
      ensures Numeral(16, groups[k], m[from + k]) <==> m[from..from + |groups|][k] == Pieces(groups)[k]
    {
      assert IsH16(groups[k]);
      HexletIffH16(groups[k]);
      H16Length(groups[k]);
      HexletIsNumeral(groups[k], m[from + k]);
    }
  }

  lemma H16Length(t: string)
    ensures IsH16(t) ==> |t| <= 4
  {
  }

  lemma HalvesAre(x: uint32, high: uint16, low: uint16)
    ensures Halves(x) == [high, low] <==> x == high * 0x1_0000 + low
  {
  }

  lemma WholeIs(groups: seq<string>, tail: seq<uint16>, m: seq<uint16>)
    requires AllH16(groups) && |groups| + |tail| == |m|
    ensures GroupsAt(groups, m, 0) && m[|groups|..] == tail <==> m == Pieces(groups) + tail
  {
    hide GroupsAt, AllH16, Pieces;
    PiecesAreNumerals(groups, m, 0);
    EqualInTwo(m, Pieces(groups), tail);
  }

  lemma CompressedIs(left: seq<string>, right: seq<string>, tail: seq<uint16>, m: seq<uint16>, from: nat)
    requires AllH16(left) && AllH16(right) && |left| <= from && from + |right| + |tail| == |m|
    ensures GroupsAt(left, m, 0) && GroupsAt(right, m, from) && m[from + |right|..] == tail
            && (forall k :: |left| <= k < from ==> m[k] == 0)
            <==> m == Pieces(left) + Zeros(from - |left|) + Pieces(right) + tail
  {
    hide GroupsAt, AllH16, Pieces, Zeros;
    PiecesAreNumerals(left, m, 0);
    PiecesAreNumerals(right, m, from);
    EqualInFour(m, Pieces(left), Zeros(from - |left|), Pieces(right), tail);
    ZerosAre(m, |left|, from);
  }

  lemma TailIs(v4: Option<string>, m: seq<uint16>)
    requires |m| == 8 && (v4.Some? ==> CanonicalAddress(v4.value).Some?)
    ensures m[8 - Width(v4)..] == TailValues(TailOf(v4))
            <==> (v4.Some? ==> CanonicalAddress(v4.value).value as int == m[6] as int * 0x1_0000 + m[7] as int)
  {
    hide CanonicalAddress, Halves;
    if v4.Some? {
      HalvesAre(CanonicalAddress(v4.value).value, m[6], m[7]);
      assert m[6..] == [m[6], m[7]];
    }
  }

  /** The denoted hexlets are those, and no others. */
  lemma MeaningIs(a: Address, m: seq<uint16>)
    requires WellFormed(a)
    ensures StandsFor(a, m) <==> m == Meaning(a)
  {
    hide GroupsAt, AllH16, IsIPv4address, CanonicalAddress, Pieces, TailValues, TailOf, Zeros;
    MeaningLength(a);
    if |m| == 8 {
      if a.v4.Some? {
        V4IsAccepted(a);
      }
      TailIs(a.v4, m);
      match a
      case Whole(groups, v4) => WholeIs(groups, TailValues(TailOf(v4)), m);
      case Compressed(left, right, v4) =>
        CompressedIs(left, right, TailValues(TailOf(v4)), m, 8 - Width(v4) - |right|);
    }
  }

  lemma MeaningLength(a: Address)
    requires WellFormed(a)
    ensures |Meaning(a)| == 8
  {
    hide AllH16, IsIPv4address, CanonicalAddress, Halves;
  }

  lemma ZerosAre(m: seq<uint16>, from: nat, to: nat)
    requires from <= to <= |m|
    ensures m[from..to] == Zeros(to - from) <==> forall k :: from <= k < to ==> m[k] == 0
  {
    if m[from..to] == Zeros(to - from) {
      assert forall k :: from <= k < to ==> m[k] == m[from..to][k - from];
    }
  }

  lemma EqualInTwo<T>(m: seq<T>, a: seq<T>, b: seq<T>)
    requires |m| == |a| + |b|
    ensures m == a + b <==> m[0..|a|] == a && m[|a|..] == b
  {
    assert m == m[0..|a|] + m[|a|..];
    if m == a + b {
      assert m[0..|a|] == a && m[|a|..] == b;
    }
  }

  lemma EqualInFour<T>(m: seq<T>, a: seq<T>, b: seq<T>, c: seq<T>, d: seq<T>)
    requires |m| == |a| + |b| + |c| + |d|
    ensures m == a + b + c + d
            <==> (m[0..|a|] == a && m[|a|..|a| + |b|] == b
                  && m[|a| + |b|..|a| + |b| + |c|] == c && m[|a| + |b| + |c|..] == d)
  {
    var i, j, k := |a|, |a| + |b|, |a| + |b| + |c|;
    EqualInTwo(m, a + b + c, d);
    EqualInTwo(m[0..k], a + b, c);
    EqualInTwo(m[0..j], a, b);
    assert m[0..k][0..j] == m[0..j] && m[0..k][j..] == m[j..k];
    assert m[0..j][0..i] == m[0..i] && m[0..j][i..] == m[i..j];
  }

  // ----- Texts outside the rule -----

  /** A colon too much changes nothing about what is read. */
  lemma StrayValue(s: string)
    requires StrayText(s)
    ensures Result(s).Some? && Result(s) == Result(s[..|s| - 1])
  {
    hide ParseTree, StrayText, Slots;
    TextIsStray(s);
    var items := ParseTree(s).value.items;
    assert Slots(Tree(items, Stray)) == Slots(Tree(items, Nothing)) by { SlotsOfItems(items); }
  }

  lemma SlotsOfItems(items: seq<Item>)
    ensures Slots(Tree(items, Stray)) == Slots(Tree(items, Nothing)) == Values(items)
  {
  }

  /** A false fourth octet is read as if the IPv4address were 255.255.255.255. */
  lemma FalseValue(s: string)
    requires FalseText(s)
    ensures Result(s).Some? && Result(s) == Result(InFront(s) + "255.255.255.255")
  {
    hide ParseTree, Valid, Print, Embedded, InFront, FalseOctet, CanonicalAddress, GapPosition, Values;
    AllOnesAddress();
    TextIsFalse(s, "255.255.255.255");
    FalseOctetValue(Embedded(s));
  }

  lemma AllOnesAddress()
    ensures CanonicalAddress("255.255.255.255") == Some(0xFFFF_FFFF)
  {
    var p := ["255", "255", "255", "255"];
    assert p[..3][..2] == p[..2] && p[..2][..1] == p[..1];
    assert Join(p[..1], '.') == "255";
    assert Join(p[..2], '.') == "255.255";
    assert Join(p[..3], '.') == "255.255.255";
    assert Join(p, '.') == "255.255.255.255";
    SplitJoin(p, '.');
    FirstThree("255");
    hide CanonicalOctet;
  }

  lemma FalseOctetValue(x: string)
    requires FalseOctet(x)
    ensures CanonicalAddress(x) == Some(0xFFFF_FFFF)
  {
    hide CanonicalAddress, IsDecOctet;
    CanonicalVersusRfc(x);
  }

  /**
   With five groups and an IPv4address, only the groups in front of the `::` are read; all behind it is read as zeros,
   whatever it is.
   */
  lemma LostEndValue(a: Address)
    requires WellFormed(a) && a.Compressed? && a.v4.Some? && |a.left| + |a.right| == 5
    ensures Result(Spell(a)) == Some(Meaning(a)[..|a.left|] + Zeros(8 - |a.left|))
  {
    hide ParseTree, Spell, AllH16, IsIPv4address, TailValues, GapPosition, Values;
    AcceptsTheRule(a);
    GapBetween(a.left, a.right);
    ValuesBetween(a.left, a.right);
    var v := Slots(TreeOf(a));
    assert v == Pieces(a.left) + [0] + Pieces(a.right) + TailValues(TailOf(a.v4));
    assert v[..|a.left|] == Pieces(a.left) == Meaning(a)[..|a.left|];
  }
}
