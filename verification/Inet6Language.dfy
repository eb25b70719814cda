/** The texts that `inet6_aton` accepts, next to the IPv6address rule, without a word about the parser. */
module Inet6Language {
  import opened Machine
  import opened Text
  import opened Inet4
  import opened Inet4Laws
  import opened Inet6
  import opened Inet6Grammar
  import opened Inet6Laws
  import opened Inet6Agreement
  import opened Inet6Exceptions

  /** Three octets, and something else than an octet as the fourth part. */
  predicate FalseOctet(x: string) {
    var p := Split(x, '.');
    |p| == 4 && IsDecOctet(p[0]) && IsDecOctet(p[1]) && IsDecOctet(p[2]) && !IsDecOctet(p[3])
  }

  /** An IPv6address without a dot, and one more colon. */
  ghost predicate StrayText(s: string) {
    Free(s, '.') && EndsWithLoneColon(s) && IsIPv6address(s[..|s| - 1])
  }

  /** A false fourth octet, where any IPv4address would make it an IPv6address. */
  ghost predicate FalseText(s: string) {
    !Free(s, '.') && FalseOctet(Embedded(s)) && IsIPv6address(InFront(s) + "0.0.0.0")
  }

  // ----- One more colon -----

  /** A stray colon stands behind a group. */
  lemma {:induction false} StrayBehindGroup(items: seq<Item>, i: nat, gap: bool)
    requires Valid(items, Stray, i, gap) && items != []
    ensures items[|items| - 1].Group?
    decreases |items|
  {
    hide Hexlet;
    if |items| == 1 {
      assert items[1..] == [];
    } else {
      StrayBehindGroup(items[1..], i + 1, gap || items[0] == Gap);
    }
  }

  /** Behind a group a colon can be added, or taken away. */
  lemma {:induction false} AddColon(items: seq<Item>, i: nat, gap: bool)
    requires items != [] && items[|items| - 1].Group?
    ensures Valid(items, Stray, i, gap) <==> Valid(items, Nothing, i, gap)
    ensures Print(items, Stray) == Print(items, Nothing) + ":"
    decreases |items|
  {
    hide Hexlet;
    var rest := items[1..];
    if |items| == 1 {
      assert rest == [];
    } else {
      AddColon(rest, i + 1, gap || items[0] == Gap);
      assert items[0].Group? ==> Separator(rest, Stray) == Separator(rest, Nothing);
    }
  }

  /** What does not end in a colon ends in a group. */
  lemma {:induction false} EndsInGroup(items: seq<Item>)
    requires items != [] && items[|items| - 1] == Gap
    ensures var p := Print(items, Nothing); p != "" && p[|p| - 1] == ':'
    decreases |items|
  {
    if |items| == 1 {
      assert items[1..] == [];
    } else {
      EndsInGroup(items[1..]);
    }
  }

  lemma StrayIsText(s: string)
    ensures var r := ParseTree(s); r.Some? && r.value.tail.Stray? ==> StrayText(s)
  {
    hide ParseTree, Valid, Print, IsIPv6address, EndsWithLoneColon;
    var r := ParseTree(s);
    if r.Some? && r.value.tail.Stray? {
      var items := r.value.items;
      ParserInvertsPrinting(s, Tree(items, Stray));
      NotEmpty(Tree(items, Stray));
      EmbeddedAddressOfText(s);
      StrayIsALoneColon(s);
      StrayBehindGroup(items, 0, false);
      AddColon(items, 0, false);
      var less := Print(items, Nothing);
      assert s[..|s| - 1] == less;
      ParserInvertsPrinting(less, Tree(items, Nothing));
      ConformingTrees(less);
    }
  }

  lemma TextIsStray(s: string)
    requires StrayText(s)
    ensures var less := ParseTree(s[..|s| - 1]);
            less.Some? && less.value.tail.Nothing? && ParseTree(s) == Some(Tree(less.value.items, Stray))
  {
    hide ParseTree, Valid, Print, IsIPv6address, Embedded, InFront, Front;
    var less := s[..|s| - 1];
    ConformingTrees(less);
    EmbeddedAddressOfText(less);
    var t := ParseTree(less).value;
    ParserInvertsPrinting(less, t);
    NotEmpty(t);
    if t.items[|t.items| - 1] == Gap {
      EndsInGroup(t.items);
      assert false;
    }
    AddColon(t.items, 0, false);
    ParserInvertsPrinting(s, Tree(t.items, Stray));
  }

  // ----- A false fourth octet -----

  /** For the items in front, one embedded address is as good as another. */
  lemma {:induction false} ExchangeDotted(items: seq<Item>, x: string, y: string, i: nat, gap: bool)
    requires Valid(items, Dotted(x), i, gap) && CanonicalAddress(y).Some?
    ensures Valid(items, Dotted(y), i, gap)
    decreases |items|
  {
    hide Hexlet, CanonicalAddress;
    if items == [] {
    } else {
      ExchangeDotted(items[1..], x, y, i + 1, gap || items[0] == Gap);
    }
  }

  /** What is accepted as an embedded address without being one. */
  lemma FalseOctetIs(x: string)
    ensures FalseOctet(x) <==> CanonicalAddress(x).Some? && !IsIPv4address(x)
  {
    hide CanonicalAddress;
    CanonicalVersusRfc(x);
  }

  lemma ZeroAddressIsOne()
    ensures IsIPv4address("0.0.0.0") && CanonicalAddress("0.0.0.0").Some?
  {
    var p := ["0", "0", "0", "0"];
    assert p[..3][..2] == p[..2] && p[..2][..1] == p[..1];
    assert Join(p[..1], '.') == "0";
    assert Join(p[..2], '.') == "0.0";
    assert Join(p[..3], '.') == "0.0.0";
    assert Join(p, '.') == "0.0.0.0";
    SplitJoin(p, '.');
    hide CanonicalAddress;
    CanonicalVersusRfc("0.0.0.0");
  }

  lemma FalseIsText(s: string)
    ensures var r := ParseTree(s); r.Some? && r.value.tail.Dotted? && !Conforms(r.value) ==> FalseText(s)
  {
    hide ParseTree, Valid, Print, IsIPv6address, Embedded, InFront, Front, FalseOctet, CanonicalAddress, IsIPv4address;
    var r := ParseTree(s);
    if r.Some? && r.value.tail.Dotted? && !Conforms(r.value) {
      var t := r.value;
      ParserInvertsPrinting(s, t);
      EmbeddedAddressOfText(s);
      TailIsAccepted(t.items, t.tail, 0, false);
      FalseOctetIs(t.tail.text);
      ZeroAddressIsOne();
      ExchangeDotted(t.items, t.tail.text, "0.0.0.0", 0, false);
      var u := Tree(t.items, Dotted("0.0.0.0"));
      FrontThenText(t.items, "0.0.0.0");
      ParserInvertsPrinting(InFront(s) + "0.0.0.0", u);
      ConformingTrees(InFront(s) + "0.0.0.0");
    }
  }

  /** What stands in front of the embedded address has no dot and ends in a colon. */
  lemma InFrontIsPlain(s: string)
    ensures var f := InFront(s); f + Embedded(s) == s && Free(f, '.') && (f != "" ==> f[|f| - 1] == ':')
  {
    TokenIsFree(s, 0, '.');
    var e := TokenEnd(s, 0, '.');
    assert InFront(s) == s[0..e][..|InFront(s)|];
  }

  /** Such a text is read as the items in front and its false address; so are they in front of any other one. */
  lemma TextIsFalse(s: string, x: string)
    requires FalseText(s) && CanonicalAddress(x).Some?
    ensures ParseTree(s).Some? && ParseTree(s).value.tail == Dotted(Embedded(s))
    ensures ParseTree(InFront(s) + x) == Some(Tree(ParseTree(s).value.items, Dotted(x)))
  {
    hide ParseTree, Valid, Print, IsIPv6address, Embedded, InFront, Front, FalseOctet, CanonicalAddress, IsIPv4address,
      Free;
    var front := InFront(s);
    var zero := front + "0.0.0.0";
    InFrontIsPlain(s);
    ZeroAddressIsOne();
    EmbeddedIsFound(front, "0.0.0.0");
    ConformingTrees(zero);
    EmbeddedAddressOfText(zero);
    var t := ParseTree(zero).value;
    ParserInvertsPrinting(zero, t);
    FalseOctetIs(Embedded(s));
    ReadAs(front, t.items, Embedded(s));
    ReadAs(front, t.items, x);
  }

  lemma ReadAs(front: string, items: seq<Item>, x: string)
    requires Valid(items, Dotted("0.0.0.0"), 0, false) && Front(items) == front && CanonicalAddress(x).Some?
    ensures ParseTree(front + x) == Some(Tree(items, Dotted(x)))
  {
    hide ParseTree, Valid, Print, Front, CanonicalAddress;
    ExchangeDotted(items, "0.0.0.0", x, 0, false);
    FrontThenText(items, x);
    ParserInvertsPrinting(front + x, Tree(items, Dotted(x)));
  }

  // ----- Parser and rule -----

  /** The accepted texts are those of the rule, those with a colon too much, and those with a false fourth octet. */
  lemma AcceptedLanguage(s: string)
    ensures Result(s).Some? <==> IsIPv6address(s) || StrayText(s) || FalseText(s)
  {
    hide ParseTree, IsIPv6address, StrayText, FalseText, IsIPv4address;
    ConformingTrees(s);
    var r := ParseTree(s);
    if StrayText(s) {
      TextIsStray(s);
    } else if FalseText(s) {
      ZeroAddressIsOne();
      TextIsFalse(s, "0.0.0.0");
    } else if r.Some? && !Conforms(r.value) {
      if r.value.tail.Stray? {
        StrayIsText(s);
      } else {
        FalseIsText(s);
      }
    }
  }

  lemma ExceptionsDoNotConform(s: string)
    ensures StrayText(s) || FalseText(s) ==> !ConformingText(s)
  {
    hide IsIPv6address, IsIPv4address, FalseOctet, CanonicalAddress, Embedded, InFront;
    FalseOctetIs(Embedded(s));
  }

  /**
   On which texts the parser does what the rule says: on all but those with a colon too much, those with a false fourth
   octet, and the addresses with a `::` and exactly five groups before an IPv4address and something else than zeros
   behind the `::`. The first two kinds are accepted and should not be; the third loses what stands behind the `::`.
   */
  lemma ParserVersusRule(s: string)
    ensures (forall v :: Result(s) == Some(v) <==> Denotes(s, v))
            <==> !StrayText(s) && !FalseText(s) && !(IsIPv6address(s) && LosesEndText(s))
  {
    hide Result, Denotes, ConformingText, LosesEndText, IsIPv6address, StrayText, FalseText;
    AcceptedLanguage(s);
    AcceptedVersusRule(s);
    AcceptedAgreement(s);
    ExceptionsDoNotConform(s);
  }
}
