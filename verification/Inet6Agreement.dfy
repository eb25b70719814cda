/** When the address that `inet6_aton` computes is the one that the IPv6address rule means. */
module Inet6Agreement {
  import opened Machine
  import opened Inet4
  import opened Inet4Laws
  import opened Inet6
  import opened Inet6Laws

  /** The eight hexlets that the parser computes, or nothing when it refuses the text. */
  function Result(s: string): Option<seq<uint16>> {
    var t := ParseTree(s);
    if t.Some? then Some(Denote(t.value)) else None
  }

  /** The `::` stands for the zeros that are missing, its own slot included. */
  function Intended(t: Tree): seq<uint16> {
    var v, g := Slots(t), GapPosition(t.items);
    if g < 0 || |v| > 8 then v else v[..g] + Zeros(9 - |v|) + v[g + 1..]
  }

  /** A `::` that stands for a single group in front of an embedded address, and something nonzero behind it. */
  ghost predicate LosesItsEnd(t: Tree) {
    var v, g := Slots(t), GapPosition(t.items);
    g >= 0 && |v| == 8 && t.tail.Dotted? && exists k :: g < k < 8 && v[k] != 0
  }

  lemma SlotOfGap(t: Tree)
    requires GapPosition(t.items) >= 0
    ensures Slots(t)[GapPosition(t.items)] == 0
  {
  }

  lemma ZerosSplit(m: nat, n: nat)
    ensures Zeros(m) + Zeros(n) == Zeros(m + n)
  {
  }

  lemma ComputedVersusIntended(t: Tree)
    requires |Slots(t)| <= 8
    ensures Denote(t) == Intended(t) <==> !LosesItsEnd(t)
  {
    var v, g := Slots(t), GapPosition(t.items);
    if g >= 0 {
      SlotOfGap(t);
      hide Slots, GapPosition, Zeros;
      if |v| < 8 {
        Widen(v, g);
      } else if t.tail.Dotted? {
        Cleared(v, g);
      } else {
        OneZero(v, g);
      }
    }
  }

  lemma Widen(v: seq<uint16>, g: nat)
    requires g < |v| < 8 && v[g] == 0
    ensures v[..g] + Zeros(8 - |v|) + v[g..] == v[..g] + Zeros(9 - |v|) + v[g + 1..]
  {
    assert v[g..] == Zeros(1) + v[g + 1..];
    ZerosSplit(8 - |v|, 1);
  }

  lemma OneZero(v: seq<uint16>, g: nat)
    requires g < |v| && v[g] == 0
    ensures v == v[..g] + Zeros(1) + v[g + 1..]
  {
  }

  lemma Cleared(v: seq<uint16>, g: nat)
    requires g < |v| == 8
    ensures v[..g] + Zeros(8 - g) == v[..g] + Zeros(1) + v[g + 1..] <==> !exists k :: g < k < 8 && v[k] != 0
  {
    var a, b := v[..g] + Zeros(8 - g), v[..g] + Zeros(1) + v[g + 1..];
    assert forall k :: g < k < 8 ==> a[k] == 0 && b[k] == v[k];
    assert forall k :: 0 <= k <= g ==> a[k] == b[k];
  }

  lemma {:induction false} NoGapInGroups(texts: seq<string>)
    ensures GapPosition(Groups(texts)) == -1
  {
    if texts == [] {
    } else {
      NoGapInGroups(texts[..|texts| - 1]);
      assert Groups(texts)[..|texts| - 1] == Groups(texts[..|texts| - 1]);
    }
  }

  lemma {:induction false} GapBetween(left: seq<string>, right: seq<string>)
    ensures GapPosition(Groups(left) + [Gap] + Groups(right)) == |left|
  {
    var items := Groups(left) + [Gap] + Groups(right);
    if right != [] {
      GapBetween(left, right[..|right| - 1]);
      assert items[..|items| - 1] == Groups(left) + [Gap] + Groups(right[..|right| - 1]);
    } else {
      assert items == Groups(left) + [Gap];
    }
  }

  lemma ValuesBetween(left: seq<string>, right: seq<string>)
    ensures Values(Groups(left) + [Gap] + Groups(right)) == Pieces(left) + [0] + Pieces(right)
  {
    hide Hexlet;
  }

  lemma MeaningIsIntended(a: Address)
    requires WellFormed(a)
    ensures Meaning(a) == Intended(TreeOf(a))
    ensures |Slots(TreeOf(a))| <= 8
  {
    hide IsIPv4address, AllH16, TailValues, GapPosition, Values;
    match a
    case Whole(groups, v4) =>
      NoGapInGroups(groups);
    case Compressed(left, right, v4) =>
      GapBetween(left, right);
      ValuesBetween(left, right);
      var v, tail := Slots(TreeOf(a)), TailValues(TailOf(v4));
      assert v == Pieces(left) + [0] + Pieces(right) + tail;
      assert v[..|left|] == Pieces(left) && v[|left| + 1..] == Pieces(right) + tail;
  }

  /** An IPv6address denotes one address only, and the parser's reading says which. */
  lemma DenotesOne(s: string, v: seq<uint16>)
    ensures Denotes(s, v) <==> ParseTree(s).Some? && Conforms(ParseTree(s).value) && v == Intended(ParseTree(s).value)
    ensures ParseTree(s).Some? && Conforms(ParseTree(s).value) ==> |Slots(ParseTree(s).value)| <= 8
  {
    hide ParseTree, WellFormed, Spell, Meaning, Conforms, Intended, Slots;
    ConformingTrees(s);
    forall a | WellFormed(a) && Spell(a) == s
      ensures ParseTree(s).Some? && Meaning(a) == Intended(ParseTree(s).value) && |Slots(ParseTree(s).value)| <= 8
    {
      AcceptsTheRule(a);
      MeaningIsIntended(a);
    }
  }

  /** Parser and rule agree on a text exactly if its tree conforms and keeps its end. */
  lemma TreeVersusRule(s: string)
    ensures var r := ParseTree(s);
            (forall v :: Result(s) == Some(v) <==> Denotes(s, v))
            <==> (r.Some? ==> Conforms(r.value) && !LosesItsEnd(r.value))
  {
    hide ParseTree, Denotes, Conforms, LosesItsEnd, Denote, Intended, Slots;
    forall v
      ensures Denotes(s, v)
              <==> ParseTree(s).Some? && Conforms(ParseTree(s).value) && v == Intended(ParseTree(s).value)
    {
      DenotesOne(s, v);
    }
    var r := ParseTree(s);
    if r.Some? {
      DenotesOne(s, Denote(r.value));
      if Conforms(r.value) {
        ComputedVersusIntended(r.value);
      } else {
        assert Result(s) == Some(Denote(r.value));
        assert !Denotes(s, Denote(r.value));
      }
    }
  }

  /** Hexlets of any case, with or without leading zeros, and a `::` anywhere: read as the rule means them. */
  lemma HexletsAreRead(a: Address)
    requires WellFormed(a) && a.v4.None?
    ensures Result(Spell(a)) == Some(Meaning(a))
  {
    hide ParseTree, Denote, Intended, WellFormed, Meaning, Spell;
    AcceptsTheRule(a);
    MeaningIsIntended(a);
    ComputedVersusIntended(TreeOf(a));
  }

  /** The same address with its dotted end written as two hexlets. */
  function WithHexlets(a: Address, high: string, low: string): Address {
    match a
    case Whole(groups, _) => Whole(groups + [high, low], None)
    case Compressed(left, right, _) => Compressed(left, right + [high, low], None)
  }

  /** The dotted end of a and the two hexlets have the same 32 bits. */
  predicate EndsIn(a: Address, high: string, low: string) {
    && a.v4.Some? && IsH16(high) && IsH16(low)
    && CanonicalAddress(a.v4.value) == Some(Hexlet(high) * 0x1_0000 + Hexlet(low))
  }

  lemma SameMeaning(a: Address, high: string, low: string)
    requires WellFormed(a) && EndsIn(a, high, low)
    ensures var b := WithHexlets(a, high, low);
            WellFormed(b) && b.v4.None? && Meaning(b) == Meaning(a)
  {
    HexletIffH16(high);
    HexletIffH16(low);
    hide IsIPv4address, IsH16, Hexlet, CanonicalAddress;
    var h, l := Hexlet(high), Hexlet(low);
    assert Halves(h * 0x1_0000 + l) == [h, l];
    assert TailValues(TailOf(a.v4)) == [h, l];
    match a
    case Whole(groups, _) =>
      PiecesOfTwoMore(groups, high, low);
    case Compressed(left, right, _) =>
      PiecesOfTwoMore(right, high, low);
  }

  lemma PiecesOfTwoMore(groups: seq<string>, high: string, low: string)
    requires Hexlet(high) >= 0 && Hexlet(low) >= 0
    ensures Pieces(groups + [high, low]) == Pieces(groups) + [Hexlet(high), Hexlet(low)]
  {
    hide Hexlet;
  }
}
