/** Concrete texts on which `inet6_aton` departs from the IPv6address rule. */
module Inet6Examples {
  import opened Machine
  import opened Text
  import opened Numbers
  import opened Inet4
  import opened Inet4Laws
  import opened Inet6
  import opened Inet6Grammar
  import opened Inet6Laws
  import opened Inet6Agreement

  // ----- A lone colon at the end -----

  const LONE_COLON: Tree := Tree([Group("1"), Gap, Group("2")], Stray)

  lemma LoneColonTree()
    ensures Valid(LONE_COLON.items, Stray, 0, false)
  {
    HexletIffH16("1");
    HexletIffH16("2");
    hide Hexlet;
    assert LONE_COLON.items[1..] == [Gap, Group("2")];
    assert [Gap, Group("2")][1..] == [Group("2")];
    assert Valid([Group("2")], Stray, 2, true);
    assert Valid([Gap, Group("2")], Stray, 1, false);
  }

  lemma LoneColonText()
    ensures Print(LONE_COLON.items, Stray) == "1::2:"
  {
    assert LONE_COLON.items[1..] == [Gap, Group("2")];
    assert [Gap, Group("2")][1..] == [Group("2")];
    assert Print([Group("2")], Stray) == "2:";
    assert Print([Gap, Group("2")], Stray) == "::2:";
  }

  /** A text that the rule refuses and the parser accepts. */
  lemma LoneColonIsAccepted()
    ensures Result("1::2:").Some? && !exists v :: Denotes("1::2:", v)
  {
    hide ParseTree, Denotes, Valid, Print, Denote, Intended;
    LoneColonTree();
    LoneColonText();
    ParserInvertsPrinting("1::2:", LONE_COLON);
    forall v ensures !Denotes("1::2:", v) {
      DenotesOne("1::2:", v);
    }
  }

  // ----- A false fourth octet -----

  const FALSE_OCTET: Tree := Tree([Gap], Dotted("1.2.3."))

  lemma FalseOctetTree()
    ensures Valid(FALSE_OCTET.items, FALSE_OCTET.tail, 0, false)
    ensures Print(FALSE_OCTET.items, FALSE_OCTET.tail) == "::1.2.3."
  {
    hide CanonicalAddress;
    TrailingDotIsAccepted();
    assert FALSE_OCTET.items[1..] == [];
    assert Print([], FALSE_OCTET.tail) == "1.2.3.";
    assert Valid([], FALSE_OCTET.tail, 1, true);
  }

  /** An embedded address whose fourth octet is missing is accepted. */
  lemma FalseOctetIsAccepted()
    ensures Result("::1.2.3.").Some? && !exists v :: Denotes("::1.2.3.", v)
  {
    hide ParseTree, Denotes, Valid, Print, Denote, Intended, IsIPv4address;
    FalseOctetTree();
    ParserInvertsPrinting("::1.2.3.", FALSE_OCTET);
    TrailingDotIsAccepted();
    forall v ensures !Denotes("::1.2.3.", v) {
      DenotesOne("::1.2.3.", v);
    }
  }

  // ----- The lost end -----

  lemma NonzeroBehindGap(t: Tree, k: nat)
    requires GapPosition(t.items) == 0 && |Slots(t)| == 8 && t.tail.Dotted? && 0 < k < |t.items|
    requires ItemValue(t.items[k]) != 0
    ensures LosesItsEnd(t) && Denote(t) == Zeros(8)
  {
    hide ItemValue, TailValues, GapPosition;
    assert Slots(t)[k] == ItemValue(t.items[k]);
    assert [] + Zeros(8) == Zeros(8);
  }

  const LOST_END: Address := Compressed([], ["1", "2", "3", "4", "5"], Some("1.2.3.4"))

  /** An IPv6address that is accepted as the unspecified address. */
  lemma EndIsLost()
    ensures Result("::1:2:3:4:5:1.2.3.4") == Some(Zeros(8))
    ensures exists v :: v != Zeros(8) && Denotes("::1:2:3:4:5:1.2.3.4", v)
  {
    hide Spell, Denote, ParseTree, WellFormed, Meaning, Intended, LosesItsEnd, TreeOf;
    LostEndIsWellFormed();
    LostEndText();
    LostEndTree();
    AcceptsTheRule(LOST_END);
    MeaningIsIntended(LOST_END);
    ComputedVersusIntended(TreeOf(LOST_END));
    assert Denotes(Spell(LOST_END), Meaning(LOST_END));
  }

  lemma LostEndIsWellFormed()
    ensures WellFormed(LOST_END)
  {
    OneTwoThreeFour();
    hide IsIPv4address;
  }

  lemma LostEndTree()
    ensures LosesItsEnd(TreeOf(LOST_END)) && Denote(TreeOf(LOST_END)) == Zeros(8)
  {
    GapBetween([], LOST_END.right);
    HexletOne();
    hide GapPosition, Hexlet, LosesItsEnd, Denote;
    assert TreeOf(LOST_END).items[1] == Group("1");
    NonzeroBehindGap(TreeOf(LOST_END), 1);
  }

  lemma HexletOne()
    ensures Hexlet("1") == 1
  {
    OneDigit(16, "1");
  }

  lemma OneTwoThreeFour()
    ensures IsIPv4address("1.2.3.4")
  {
    var p := ["1", "2", "3", "4"];
    assert p[..3][..2] == p[..2] && p[..2][..1] == p[..1];
    assert Join(p[..1], '.') == "1";
    assert Join(p[..2], '.') == "1.2";
    assert Join(p[..3], '.') == "1.2.3";
    assert Join(p, '.') == "1.2.3.4";
    SplitJoin(p, '.');
  }

  lemma LostEndText()
    ensures Spell(LOST_END) == "::1:2:3:4:5:1.2.3.4"
  {
    hide Join;
    var p := ["1", "2", "3", "4", "5", "1.2.3.4"];
    assert LOST_END.right + ["1.2.3.4"] == p;
    LostEndJoined(p);
    LostEndLiteral("1.2.3.4");
  }

  lemma LostEndJoined(p: seq<string>)
    requires |p| == 6
    ensures Join(p, ':') == p[0] + ":" + (p[1] + ":" + (p[2] + ":" + (p[3] + ":" + (p[4] + ":" + p[5]))))
  {
    hide Join;
    JoinOne(p[5], ':');
    assert p[5..] == [p[5]] && p[0..] == p;
    JoinNext(p, 4, p[5]);
    JoinNext(p, 3, p[4] + ":" + p[5]);
    JoinNext(p, 2, p[3] + ":" + (p[4] + ":" + p[5]));
    JoinNext(p, 1, p[2] + ":" + (p[3] + ":" + (p[4] + ":" + p[5])));
    JoinNext(p, 0, p[1] + ":" + (p[2] + ":" + (p[3] + ":" + (p[4] + ":" + p[5]))));
  }

  lemma LostEndLiteral(v4: string)
    ensures "1" + ":" + ("2" + ":" + ("3" + ":" + ("4" + ":" + ("5" + ":" + v4)))) == "1:2:3:4:5:" + v4
  {
  }

  lemma JoinNext(p: seq<string>, k: nat, tail: string)
    requires k + 1 < |p| && Join(p[k + 1..], ':') == tail
    ensures Join(p[k..], ':') == p[k] + ":" + tail
  {
    assert p[k..] == [p[k]] + p[k + 1..];
    JoinCons(p[k], p[k + 1..], ':');
  }
}
