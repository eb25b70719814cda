/** The texts that `inet6_aton` accepts, as a grammar: the parser is its inverse. */
module Inet6Grammar {
  import opened Machine
  import opened Text
  import opened Numbers
  import opened Inet4
  import opened Inet6

  /** What stands between a group and what follows it. */
  function Separator(rest: seq<Item>, tail: Tail): string {
    if rest == [] then (if tail.Nothing? then "" else ":")
    else if rest[0] == Gap then ""
    else ":"
  }

  function Print(items: seq<Item>, tail: Tail): string {
    if items == [] then (if tail.Dotted? then tail.text else "")
    else match items[0]
      case Gap => "::" + Print(items[1..], tail)
      case Group(t) => t + Separator(items[1..], tail) + Print(items[1..], tail)
  }

  /**
   The trees that may follow i taken slots. A stray colon has to follow a group; the fourth octet of an embedded
   address may be any text (`CanonicalAddress`).
   */
  predicate Valid(items: seq<Item>, tail: Tail, i: nat, gap: bool) {
    if items == [] then
      if tail.Dotted? then DottedAllowed(i, gap) && CanonicalAddress(tail.text).Some? else i == 8 || gap
    else
      && i < 8
      && match items[0]
         case Gap => !gap && !(items[1..] == [] && tail.Stray?) && Valid(items[1..], tail, i + 1, true)
         case Group(t) => Hexlet(t) >= 0 && Valid(items[1..], tail, i + 1, gap)
  }

  // ----- How an embedded address begins -----

  lemma {:induction false} FirstPart(s: string, lo: nat, hi: nat, sep: char)
    requires lo <= hi <= |s| && (hi < |s| ==> s[hi] == sep)
    ensures Parts(s, lo, hi, sep)[0] == Token(s, lo, sep)
    ensures |Parts(s, lo, hi, sep)| > 1 ==> TokenEnd(s, lo, sep) < hi
    decreases hi
  {
    hide LastBefore, TokenEnd, Parts;
    PartsStep(s, lo, hi, sep);
    var d := LastBefore(s, hi, sep);
    if d >= lo {
      FirstPart(s, lo, d, sep);
      PartsStep(s, lo, d, sep);
      if LastBefore(s, d, sep) < lo {
        LastToken(s, lo, d, sep);
      }
    } else {
      LastToken(s, lo, hi, sep);
    }
  }

  /** It begins with decimal digits, and a dot follows them. */
  lemma DottedBeginsWithDigits(s: string, idx: nat)
    requires idx <= |s| && CanonicalFrom(s, idx).Some?
    ensures var e := TokenEnd(s, idx, '.'); idx < e < |s| && forall k :: idx <= k < e ==> IsDigit(s[k])
  {
    hide Parts, TokenEnd, Positional, AllDigits;
    FirstPart(s, idx, |s|, '.');
    var e := TokenEnd(s, idx, '.');
    OctetDigits(Parts(s, idx, |s|, '.')[0]);
    forall k | idx <= k < e ensures IsDigit(s[k]) {
      assert s[idx..e][k - idx] == s[k];
    }
  }

  lemma OctetDigits(t: string)
    ensures CanonicalOctet(t) >= 0 ==> |t| > 0 && forall k :: 0 <= k < |t| ==> IsDigit(t[k])
  {
    hide Positional;
  }

  lemma DottedStartsWithDigit(s: string, idx: nat)
    requires idx <= |s| && CanonicalFrom(s, idx).Some?
    ensures idx < |s| && IsDigit(s[idx])
  {
    hide CanonicalFrom, TokenEnd;
    DottedBeginsWithDigits(s, idx);
  }

  lemma HexletDigits(t: string)
    ensures Hexlet(t) >= 0 ==> 1 <= |t| <= 4 && forall k :: 0 <= k < |t| ==> IsXDigit(t[k])
  {
    hide Positional;
  }

  /** A group is never taken for the start of an embedded address. */
  lemma GroupIsNotDotted(s: string, idx: nat)
    requires idx <= |s| && Hexlet(Token(s, idx, ':')) >= 0
    ensures CanonicalFrom(s, idx) == None
  {
    hide CanonicalFrom, TokenEnd, Hexlet, Parts;
    var c := TokenEnd(s, idx, ':');
    HexletDigits(s[idx..c]);
    forall k | idx <= k < c ensures IsXDigit(s[k]) {
      assert s[idx..c][k - idx] == s[k];
    }
    if CanonicalFrom(s, idx).Some? {
      DottedBeginsWithDigits(s, idx);
    }
  }

  // ----- Sound: what the parser returns prints as what it read -----

  /** What the first thing that is read says about the character at idx. */
  lemma FirstRead(s: string, idx: nat, i: nat, gap: bool, stray: bool)
    requires idx <= |s| && i <= 8
    ensures match ParseItems(s, idx, i, gap, stray)
            case None => true
            case Some(t) =>
              if t.items == [] then
                if t.tail.Dotted? then idx < |s| && s[idx] != ':' else idx == |s| && (t.tail.Stray? <==> stray)
              else if t.items[0] == Gap then GapAt(s, idx)
              else idx < |s| && s[idx] != ':'
  {
    hide CanonicalFrom, Hexlet;
    if idx < |s| {
      if CanonicalFrom(s, idx).Some? {
        DottedStartsWithDigit(s, idx);
      }
      if Hexlet(Token(s, idx, ':')) >= 0 {
        HexletDigits(Token(s, idx, ':'));
      }
    }
  }

  lemma {:induction false} Sound(s: string, idx: nat, i: nat, gap: bool, stray: bool)
    requires idx <= |s| && i <= 8
    ensures match ParseItems(s, idx, i, gap, stray)
            case None => true
            case Some(t) => Valid(t.items, t.tail, i, gap) && Print(t.items, t.tail) == s[idx..]
    decreases 8 - i
  {
    hide CanonicalFrom, CanonicalAddress, Hexlet, AfterGroup, StrayAfterGroup, Print, Valid, Separator;
    var r := ParseItems(s, idx, i, gap, stray);
    if r.None? {
    } else {
      if i == 8 || idx == |s| {
        SoundEnd(s, idx, i, gap, r.value);
      } else if DottedAllowed(i, gap) && CanonicalFrom(s, idx).Some? {
        SoundDotted(s, idx, i, gap);
      } else if GapAt(s, idx) {
        Sound(s, idx + 2, i + 1, true, false);
        FirstRead(s, idx + 2, i + 1, true, false);
        SoundGap(s, idx, i, ParseItems(s, idx + 2, i + 1, true, false).value);
      } else {
        var next, stray' := AfterGroup(s, idx), StrayAfterGroup(s, idx);
        Sound(s, next, i + 1, gap, stray');
        FirstRead(s, next, i + 1, gap, stray');
        SoundGroup(s, idx, i, gap, ParseItems(s, next, i + 1, gap, stray').value);
      }
    }
  }

  lemma SoundEnd(s: string, idx: nat, i: nat, gap: bool, t: Tree)
    requires idx == |s| && (i == 8 || gap) && t.items == [] && !t.tail.Dotted?
    ensures Valid(t.items, t.tail, i, gap) && Print(t.items, t.tail) == s[idx..]
  {
  }

  lemma SoundDotted(s: string, idx: nat, i: nat, gap: bool)
    requires idx <= |s| && DottedAllowed(i, gap) && CanonicalFrom(s, idx).Some?
    ensures Valid([], Dotted(s[idx..]), i, gap) && Print([], Dotted(s[idx..])) == s[idx..]
  {
    ParsingAtIsParsingTheSuffix(s, idx);
    hide CanonicalFrom, CanonicalAddress;
  }

  lemma SoundGap(s: string, idx: nat, i: nat, t: Tree)
    requires idx <= |s| && i < 8 && GapAt(s, idx) && Valid(t.items, t.tail, i + 1, true)
    requires Print(t.items, t.tail) == s[idx + 2..] && !(t.items == [] && t.tail.Stray?)
    ensures Valid([Gap] + t.items, t.tail, i, false) && Print([Gap] + t.items, t.tail) == s[idx..]
  {
    assert ([Gap] + t.items)[1..] == t.items;
    assert s[idx..] == "::" + s[idx + 2..];
  }

  lemma SoundGroup(s: string, idx: nat, i: nat, gap: bool, t: Tree)
    requires idx < |s| && i < 8 && Hexlet(Token(s, idx, ':')) >= 0
    requires var next := AfterGroup(s, idx);
             && Valid(t.items, t.tail, i + 1, gap)
             && Print(t.items, t.tail) == s[next..]
             && if t.items == [] then
                  if t.tail.Dotted? then next < |s| && s[next] != ':'
                  else next == |s| && (t.tail.Stray? <==> StrayAfterGroup(s, idx))
                else if t.items[0] == Gap then GapAt(s, next)
                else next < |s| && s[next] != ':'
    ensures var g := Group(Token(s, idx, ':'));
            Valid([g] + t.items, t.tail, i, gap) && Print([g] + t.items, t.tail) == s[idx..]
  {
    hide Hexlet, Print, Separator, TokenEnd, AfterGroup, StrayAfterGroup, GapAt;
    var g := Group(Token(s, idx, ':'));
    assert ([g] + t.items)[1..] == t.items;
    assert Valid([g] + t.items, t.tail, i, gap);
    hide Valid, ItemValue;
    SeparatorRead(s, idx, t);
    PrintGroup(g.text, t);
    Rejoin(s, idx, TokenEnd(s, idx, ':'));
  }

  lemma PrintGroup(text: string, t: Tree)
    ensures Print([Group(text)] + t.items, t.tail)
            == text + (Separator(t.items, t.tail) + Print(t.items, t.tail))
  {
    assert ([Group(text)] + t.items)[1..] == t.items;
  }

  lemma Rejoin(s: string, idx: nat, e: nat)
    requires idx <= e <= |s|
    ensures s[idx..e] + s[e..] == s[idx..]
  {
  }

  lemma SeparatorRead(s: string, idx: nat, t: Tree)
    requires idx < |s|
    requires var next := AfterGroup(s, idx);
             if t.items == [] then
               if t.tail.Dotted? then next < |s| && s[next] != ':'
               else next == |s| && (t.tail.Stray? <==> StrayAfterGroup(s, idx))
             else if t.items[0] == Gap then GapAt(s, next)
             else next < |s| && s[next] != ':'
    ensures s[TokenEnd(s, idx, ':')..] == Separator(t.items, t.tail) + s[AfterGroup(s, idx)..]
  {
    hide TokenEnd;
    var e := TokenEnd(s, idx, ':');
    if e < |s| {
      assert s[e..] == ":" + s[e + 1..];
    }
  }

  // ----- Complete: whatever prints a valid tree is parsed to that tree -----

  /** Only a `::` prints a colon first. */
  lemma FirstPrinted(t: Tree, i: nat, gap: bool)
    requires Valid(t.items, t.tail, i, gap)
    ensures var p := Print(t.items, t.tail);
            if t.items != [] && t.items[0] == Gap then |p| >= 2 && p[0] == p[1] == ':'
            else (p == [] <==> t.items == [] && !t.tail.Dotted?) && (p != [] ==> p[0] != ':')
  {
    hide CanonicalAddress, Hexlet;
    if t.items == [] {
      if t.tail.Dotted? {
        assert t.tail.text[0..] == t.tail.text;
        ParsingAtIsParsingTheSuffix(t.tail.text, 0);
        DottedStartsWithDigit(t.tail.text, 0);
      }
    } else if t.items[0].Group? {
      HexletDigits(t.items[0].text);
    }
  }

  lemma {:induction false} Complete(s: string, idx: nat, i: nat, gap: bool, stray: bool, t: Tree)
    requires idx <= |s| && i <= 8
    requires Valid(t.items, t.tail, i, gap) && Print(t.items, t.tail) == s[idx..]
    requires t.items == [] ==> (stray <==> t.tail.Stray?)
    ensures ParseItems(s, idx, i, gap, stray) == Some(t)
    decreases |t.items|
  {
    if t.items == [] {
      CompleteEnd(s, idx, i, gap, stray, t);
    } else {
      var rest := Tree(t.items[1..], t.tail);
      assert t.items == [t.items[0]] + rest.items;
      if t.items[0] == Gap {
        assert s[idx..] == "::" + Print(rest.items, rest.tail);
        assert s[idx + 2..] == s[idx..][2..];
        Complete(s, idx + 2, i + 1, true, false, rest);
        CompleteGap(s, idx, i, rest);
      } else {
        PrintGroup(t.items[0].text, rest);
        CompleteGroup(s, idx, i + 1, gap, t.items[0].text, rest);
        Complete(s, AfterGroup(s, idx), i + 1, gap, StrayAfterGroup(s, idx), rest);
        ParseGroup(s, idx, i, gap, stray, t.items[0].text, rest);
      }
    }
  }

  lemma CompleteEnd(s: string, idx: nat, i: nat, gap: bool, stray: bool, t: Tree)
    requires idx <= |s| && i <= 8 && t.items == []
    requires Valid(t.items, t.tail, i, gap) && Print(t.items, t.tail) == s[idx..]
    requires stray <==> t.tail.Stray?
    ensures ParseItems(s, idx, i, gap, stray) == Some(t)
  {
    hide CanonicalFrom, CanonicalAddress;
    if t.tail.Dotted? {
      ParsingAtIsParsingTheSuffix(s, idx);
      DottedStartsWithDigit(s, idx);
    }
  }

  lemma CompleteGap(s: string, idx: nat, i: nat, rest: Tree)
    requires idx <= |s| && i < 8 && s[idx..] == "::" + Print(rest.items, rest.tail)
    requires Valid(rest.items, rest.tail, i + 1, true)
    requires ParseItems(s, idx + 2, i + 1, true, false) == Some(rest)
    ensures ParseItems(s, idx, i, false, false) == Some(Tree([Gap] + rest.items, rest.tail))
    ensures ParseItems(s, idx, i, false, true) == Some(Tree([Gap] + rest.items, rest.tail))
  {
    hide CanonicalFrom, Hexlet, Print;
    assert s[idx] == s[idx..][0] && s[idx + 1] == s[idx..][1];
    assert |s| - idx >= 3 ==> s[idx + 2] == s[idx..][2];
    FirstPrinted(rest, i + 1, true);
    if CanonicalFrom(s, idx).Some? {
      DottedStartsWithDigit(s, idx);
    }
  }

  lemma CompleteGroup(s: string, idx: nat, i: nat, gap: bool, g: string, rest: Tree)
    requires idx <= |s| && Hexlet(g) >= 0 && Valid(rest.items, rest.tail, i, gap)
    requires s[idx..] == g + Separator(rest.items, rest.tail) + Print(rest.items, rest.tail)
    ensures idx < |s| && s[idx] != ':' && Token(s, idx, ':') == g
    ensures s[AfterGroup(s, idx)..] == Print(rest.items, rest.tail)
    ensures rest.items == [] ==> (StrayAfterGroup(s, idx) <==> rest.tail.Stray?)
  {
    hide Hexlet, Print, Valid;
    FirstPrinted(rest, i, gap);
    HexletDigits(g);
    var sep, p, e := Separator(rest.items, rest.tail), Print(rest.items, rest.tail), idx + |g|;
    assert s[idx] == s[idx..][0];
    assert s[e..] == s[idx..][|g|..] == sep + p;
    assert s[idx..e] == s[idx..][..|g|] == g;
    assert e < |s| ==> s[e] == s[e..][0] == ':';
    TokenEndIs(s, idx, e, ':');
    hide TokenEnd;
    assert e + 1 < |s| ==> s[e + 1] == s[e..][1];
    if e < |s| {
      assert s[e + 1..] == s[e..][1..];
    }
  }

  lemma ParseGroup(s: string, idx: nat, i: nat, gap: bool, stray: bool, g: string, rest: Tree)
    requires idx < |s| && i < 8 && s[idx] != ':' && Token(s, idx, ':') == g && Hexlet(g) >= 0
    requires ParseItems(s, AfterGroup(s, idx), i + 1, gap, StrayAfterGroup(s, idx)) == Some(rest)
    ensures ParseItems(s, idx, i, gap, stray) == Some(Tree([Group(g)] + rest.items, rest.tail))
  {
    GroupIsNotDotted(s, idx);
    hide CanonicalFrom, Hexlet, TokenEnd, AfterGroup, StrayAfterGroup;
  }

  /** The parser is the inverse of printing: it returns t exactly for the text that t prints as. */
  lemma ParserInvertsPrinting(s: string, t: Tree)
    ensures ParseTree(s) == Some(t) <==> Valid(t.items, t.tail, 0, false) && Print(t.items, t.tail) == s
  {
    hide ParseItems, Valid, Print;
    assert s[0..] == s;
    Sound(s, 0, 0, false, false);
    if Valid(t.items, t.tail, 0, false) && Print(t.items, t.tail) == s {
      NotEmpty(t);
      Complete(s, 0, 0, false, false, t);
    }
  }

  lemma NotEmpty(t: Tree)
    requires Valid(t.items, t.tail, 0, false)
    ensures t.items != []
  {
  }
}
