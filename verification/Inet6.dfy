/** The IPv6 parser `inet6_aton` and its helpers. */
module Inet6 {
  import opened Machine
  import opened Text
  import opened AddressComponent
  import opened Inet4

  // ----- What the parser reads -----

  /** A run of hexadecimal digits, or the `::` that shortens the address. */
  datatype Item = Group(text: string) | Gap

  /** What follows the last item: nothing, one more colon, or an embedded IPv4 address. */
  datatype Tail = Nothing | Stray | Dotted(text: string)

  datatype Tree = Tree(items: seq<Item>, tail: Tail)

  /** The value of one to four hexadecimal digits, -1 for any other text. */
  function Hexlet(t: string): (v: int)
    ensures -1 <= v < 0x1_0000
  {
    Component(16, 0xFFFF, 4, t)
  }

  predicate GapAt(s: string, idx: nat)
    requires idx <= |s|
  {
    |s| - idx >= 2 && s[idx] == ':' && s[idx + 1] == ':'
  }

  /** Where the parser goes on after a group: behind its colon, but in front of a `::`. */
  function AfterGroup(s: string, idx: nat): (next: nat)
    requires idx <= |s|
    ensures next <= |s|
  {
    var sep := TokenEnd(s, idx, ':');
    if sep == |s| || GapAt(s, sep) then sep else sep + 1
  }

  predicate StrayAfterGroup(s: string, idx: nat)
    requires idx <= |s|
  {
    TokenEnd(s, idx, ':') + 1 == |s|
  }

  function Prepend(items: seq<Item>, rest: Option<Tree>): Option<Tree> {
    match rest
    case None => None
    case Some(t) => Some(Tree(items + t.items, t.tail))
  }

  predicate DottedAllowed(i: nat, gap: bool) {
    i == 6 || (i < 6 && gap)
  }

  /** The items from idx on, when i of the eight slots are taken and `gap` tells whether a `::` is among them. */
  function ParseItems(s: string, idx: nat, i: nat, gap: bool, stray: bool): Option<Tree>
    requires idx <= |s| && i <= 8
    decreases 8 - i
  {
    if i == 8 || idx == |s| then
      if idx == |s| && (i == 8 || gap) then Some(Tree([], if stray then Stray else Nothing)) else None
    else if DottedAllowed(i, gap) && CanonicalFrom(s, idx).Some? then
      Some(Tree([], Dotted(s[idx..])))
    else if GapAt(s, idx) then
      if gap || (|s| - idx >= 3 && s[idx + 2] == ':') then None
      else Prepend([Gap], ParseItems(s, idx + 2, i + 1, true, false))
    else if Hexlet(Token(s, idx, ':')) < 0 then
      None
    else
      Prepend([Group(Token(s, idx, ':'))],
              ParseItems(s, AfterGroup(s, idx), i + 1, gap, StrayAfterGroup(s, idx)))
  }

  function ParseTree(s: string): Option<Tree> {
    ParseItems(s, 0, 0, false, false)
  }

  // ----- What it makes of that -----

  function ItemValue(item: Item): uint16 {
    if item.Group? && Hexlet(item.text) >= 0 then Hexlet(item.text) else 0
  }

  function Values(items: seq<Item>): (v: seq<uint16>)
    ensures |v| == |items|
  {
    seq(|items|, k requires 0 <= k < |items| => ItemValue(items[k]))
  }

  /** Position of the `::` among the items, or -1. */
  function GapPosition(items: seq<Item>): (g: int)
    ensures -1 <= g < |items|
    ensures g >= 0 ==> items[g] == Gap
  {
    if items == [] then -1
    else if items[|items| - 1] == Gap then |items| - 1
    else GapPosition(items[..|items| - 1])
  }

  /** The two hexlets of an embedded address. */
  function Halves(x: uint32): seq<uint16> {
    [x / 0x1_0000, x % 0x1_0000]
  }

  function TailValues(tail: Tail): (v: seq<uint16>)
    ensures |v| == if tail.Dotted? then 2 else 0
  {
    if tail.Dotted? then
      var a := CanonicalAddress(tail.text);
      Halves(if a.Some? then a.value else 0)
    else []
  }

  function Zeros(n: nat): (z: seq<uint16>)
    ensures |z| == n
  {
    seq(n, _ => 0)
  }

  /** The slots in the order in which they were read; the `::` holds one of them. */
  function Slots(t: Tree): seq<uint16> {
    Values(t.items) + TailValues(t.tail)
  }

  /** The eight hexlets of the address, as the parser leaves them in its array. */
  function Denote(t: Tree): seq<uint16> {
    var v, g := Slots(t), GapPosition(t.items);
    if g < 0 || |v| > 8 then v
    else if |v| < 8 then v[..g] + Zeros(8 - |v|) + v[g..]
    else if t.tail.Dotted? then v[..g] + Zeros(8 - g)
    else v
  }

  /** Each hexlet as two bytes, the more significant one first. */
  function Bytes(v: seq<uint16>): (b: seq<byte>)
    ensures |b| == 2 * |v|
  {
    seq(2 * |v|, k requires 0 <= k < 2 * |v| => if k % 2 == 0 then v[k / 2] / 0x100 else v[k / 2] % 0x100)
  }

  lemma BytesAreBigEndian(v: seq<uint16>, k: nat)
    requires k < |v|
    ensures var high: int, low: int := Bytes(v)[2 * k], Bytes(v)[2 * k + 1]; high * 0x100 + low == v[k]
  {
  }

  // ----- The array helpers -----

  /** What `rshift_array` does, for every argument. With a shift of 0 it clears the cells it should leave alone. */
  function RShift(a: seq<uint16>, from: nat, shift: nat): (r: seq<uint16>)
    ensures |r| == |a|
  {
    if from >= |a| then a
    else
      seq(|a|, j requires 0 <= j < |a| =>
        if j >= from + shift then (if shift == 0 then 0 else a[j - shift])
        else if j >= from && j + shift < |a| then 0
        else a[j])
  }

  /** Cells from `from` on move up and leave zeros behind; what is neither moved nor moved to stays. */
  lemma ShiftMoves(a: seq<uint16>, from: nat, shift: nat)
    ensures var r := RShift(a, from, shift);
            && (forall j :: 0 <= j < |a| && j < from ==> r[j] == a[j])
            && (shift == 0 ==> forall j :: from <= j < |a| ==> r[j] == 0)
            && (shift > 0 ==>
                  && (forall j :: from <= j < |a| - shift ==> r[j + shift] == a[j])
                  && (forall j :: from <= j < |a| - shift && j < from + shift ==> r[j] == 0)
                  && (forall j :: from <= j < |a| && |a| - shift <= j < from + shift ==> r[j] == a[j]))
  {
  }

  /** The last n cells are zero: what a shift by n pushes out of the array. */
  predicate EndsInZeros(a: seq<uint16>, n: nat) {
    forall k :: 0 <= k < |a| && k >= |a| - n ==> a[k] == 0
  }

  /** Into an array that ends in enough zeros it inserts zeros, unless there are none to insert. */
  lemma ShiftInsertsZeros(a: seq<uint16>, from: nat, shift: nat)
    requires from < |a| && shift <= |a| && EndsInZeros(a, shift)
    ensures var end := if from + shift <= |a| then |a| - shift else from;
            RShift(a, from, shift) == a[..from] + Zeros(|a| - end) + a[from..end]
            <==> shift > 0 || forall k :: from <= k < |a| ==> a[k] == 0
  {
    var end := if from + shift <= |a| then |a| - shift else from;
    var r, inserted := RShift(a, from, shift), a[..from] + Zeros(|a| - end) + a[from..end];
    if shift == 0 {
      assert inserted == a;
      assert forall k :: from <= k < |a| ==> r[k] == 0;
    } else {
      forall k | 0 <= k < |a| ensures r[k] == inserted[k] {
        assert inserted[k] == if k < from then a[k] else if k < from + |a| - end then 0 else a[k - (|a| - end)];
      }
    }
  }

  /** The cells while they are shifted, from the end down to behind pos. */
  function Shifting(a: seq<uint16>, shift: nat, pos: int): (r: seq<uint16>)
    ensures |r| == |a|
  {
    seq(|a|, j requires 0 <= j < |a| =>
      if j > pos then (if shift == 0 || j < shift then 0 else a[j - shift])
      else if j + shift > pos && j + shift < |a| then 0
      else a[j])
  }

  lemma ShiftStep(a: seq<uint16>, shift: nat, pos: int)
    requires shift <= pos < |a|
    ensures var r := Shifting(a, shift, pos);
            r[pos := r[pos - shift]][pos - shift := 0] == Shifting(a, shift, pos - 1)
  {
  }

  lemma ShiftBegins(a: seq<uint16>, shift: nat)
    ensures Shifting(a, shift, |a| - 1) == a
  {
  }

  lemma ShiftEnds(a: seq<uint16>, from: nat, shift: nat, pos: int)
    requires from < |a| && pos < |a| && pos < from + shift && (pos == from + shift - 1 || pos == |a| - 1)
    ensures Shifting(a, shift, pos) == RShift(a, from, shift)
  {
  }

  method RShiftArray(a: array<uint16>, from: nat, shift: nat)
    modifies a
    ensures a[..] == RShift(old(a[..]), from, shift)
  {
    if from > a.Length - 1 {
      return;
    }
    hide Shifting, RShift;
    var pos := a.Length - 1;
    ShiftBegins(a[..], shift);
    while pos >= from + shift
      invariant pos < a.Length && (pos >= from + shift - 1 || pos == a.Length - 1)
      invariant a[..] == Shifting(old(a[..]), shift, pos)
    {
      ShiftStep(old(a[..]), shift, pos);
      a[pos] := a[pos - shift];
      a[pos - shift] := 0;
      pos := pos - 1;
    }
    ShiftEnds(old(a[..]), from, shift, pos);
  }

  method Inet6ArrayToSaddr(comps: array<uint16>, in6: array<byte>)
    requires comps.Length == 8 && in6.Length == 16
    modifies in6
    ensures in6[..] == Bytes(comps[..])
  {
    var i := 0;
    while i < 8
      invariant 0 <= i <= 8
      invariant forall k :: 0 <= k < 2 * i ==> in6[k] == Bytes(comps[..])[k]
    {
      var hexlet := comps[i];
      in6[i * 2] := hexlet / 0x100;
      in6[i * 2 + 1] := hexlet % 0x100;
      i := i + 1;
    }
  }

  method ParseInet6Hexlet(s: string, idx: nat) returns (v: int)
    requires idx <= |s|
    ensures v == Hexlet(Token(s, idx, ':'))
  {
    v := ParseAddressComponent(16, ':', 0xFFFF, 4, s, idx);
  }

  // ----- The parser -----

  /** The array of slots after the first items: their values, then zeros. */
  ghost predicate Filled(cells: seq<uint16>, items: seq<Item>) {
    |items| <= 8 && cells == Values(items) + Zeros(8 - |items|)
  }

  lemma SnocGap(items: seq<Item>, item: Item)
    ensures GapPosition(items + [item]) == if item == Gap then |items| else GapPosition(items)
  {
    assert (items + [item])[..|items|] == items;
  }

  lemma SnocValue(items: seq<Item>, item: Item)
    ensures Values(items + [item]) == Values(items) + [ItemValue(item)]
  {
    hide ItemValue;
    forall k | 0 <= k < |items| ensures Values(items + [item])[k] == Values(items)[k] {
      assert (items + [item])[k] == items[k];
    }
  }

  lemma PrependSnoc(items: seq<Item>, item: Item, rest: Option<Tree>)
    ensures Prepend(items, Prepend([item], rest)) == Prepend(items + [item], rest)
  {
    if rest.Some? {
      assert items + ([item] + rest.value.items) == items + [item] + rest.value.items;
    }
  }

  lemma FillGap(cells: seq<uint16>, items: seq<Item>)
    requires Filled(cells, items) && |items| < 8
    ensures Filled(cells, items + [Gap])
  {
    hide Values;
    SnocValue(items, Gap);
    assert Zeros(8 - |items|) == [0] + Zeros(7 - |items|);
  }

  lemma FillGroup(cells: seq<uint16>, items: seq<Item>, t: string)
    requires Filled(cells, items) && |items| < 8 && Hexlet(t) >= 0
    ensures Filled(cells[|items| := Hexlet(t)], items + [Group(t)])
  {
    hide Values, Hexlet;
    SnocValue(items, Group(t));
    assert Zeros(8 - |items|) == [0] + Zeros(7 - |items|);
  }

  /** When the text ends early, shifting what stands behind the `::` to the end inserts the missing zeros. */
  lemma ShiftAtEnd(cells: seq<uint16>, t: Tree)
    requires Filled(cells, t.items) && |t.items| < 8 && !t.tail.Dotted?
    requires GapPosition(t.items) >= 0
    ensures EndsInZeros(cells, 8 - |t.items|)
    ensures RShift(cells, GapPosition(t.items), 8 - |t.items|) == Denote(t)
  {
    hide Values, GapPosition, RShift;
    assert Slots(t) == Values(t.items);
    ShiftInsertsZeros(cells, GapPosition(t.items), 8 - |t.items|);
  }

  /** The same behind an embedded address; when it takes the last two slots, the tail is cleared instead. */
  lemma ShiftAfterDotted(cells: seq<uint16>, t: Tree)
    requires |t.items| <= 6 && t.tail.Dotted?
    requires cells == Slots(t) + Zeros(6 - |t.items|)
    ensures EndsInZeros(cells, 6 - |t.items|)
    ensures if GapPosition(t.items) < 0 then |t.items| == 6 ==> cells == Denote(t)
            else RShift(cells, GapPosition(t.items), 6 - |t.items|) == Denote(t)
  {
    hide Values, TailValues, GapPosition;
    if GapPosition(t.items) >= 0 && |t.items| < 6 {
      hide RShift;
      ShiftInsertsZeros(cells, GapPosition(t.items), 6 - |t.items|);
    }
  }

  lemma FillDotted(cells: seq<uint16>, t: Tree)
    requires Filled(cells, t.items) && |t.items| <= 6 && t.tail.Dotted?
    ensures var v := TailValues(t.tail);
            cells[|t.items| := v[0]][|t.items| + 1 := v[1]] == Slots(t) + Zeros(6 - |t.items|)
  {
    hide Values, TailValues;
  }

  /** The checks before the loop. The one for a colon at the end looks at the NUL, so it never holds. */
  predicate RefusedEarly(s: string) {
    var last, beforeLast := At(s, |s|), if |s| == 0 then NUL else At(s, |s| - 1);
    |s| + 1 < 3 || (At(s, 0) == ':' && At(s, 1) != ':') || (last == ':' && beforeLast != ':')
  }

  /** They refuse nothing that the loop would accept. */
  lemma EarlyChecks(s: string)
    requires RefusedEarly(s)
    ensures ParseTree(s) == None
  {
    assert Hexlet("") == -1;
    if |s| > 0 {
      var next := AfterGroup(s, 0);
      assert next == |s| || s[0] == ':';
      assert ParseItems(s, next, 1, false, StrayAfterGroup(s, 0)) == None || s[0] == ':';
    }
  }

  /** Lines 369-378 of the loop: an embedded address takes two slots and closes the address. */
  method PlaceDotted(comps: array<uint16>, i: nat, shortener: int, v4: uint32, ghost t: Tree)
    requires comps.Length == 8 && Filled(comps[..], t.items)
    requires t.tail.Dotted? && TailValues(t.tail) == Halves(v4)
    requires shortener == GapPosition(t.items) && i == |t.items| <= 6 && (shortener == -1 ==> i == 6)
    modifies comps
    ensures comps[..] == Denote(t)
  {
    hide Filled, GapPosition, TailValues, Denote, RShift, Slots;
    FillDotted(comps[..], t);
    comps[i] := v4 / 0x1_0000;
    comps[i + 1] := v4 % 0x1_0000;
    ShiftAfterDotted(comps[..], t);
    if shortener != -1 {
      assert EndsInZeros(comps[..], 8 - (i + 2));
      RShiftArray(comps, shortener, 8 - (i + 2));
    }
  }

  /** Lines 408-416 of the loop. */
  method SkipGroup(s: string, idx: nat) returns (next: nat)
    requires idx <= |s|
    ensures next == AfterGroup(s, idx)
  {
    hide TokenEnd;
    var nextSep := FindChr(s, idx, ':');
    if nextSep == -1 {
      next := |s|;
    } else if |s| - nextSep >= 2 && At(s, nextSep + 1) == ':' {
      next := nextSep;
    } else {
      next := nextSep + 1;
    }
  }

  /** `inet6_aton`; the address is left alone when the text is refused. */
  method Inet6Aton(order: ByteOrder, s: string, in6: array<byte>) returns (rc: int)
    requires in6.Length == 16
    modifies in6
    ensures match ParseTree(s)
            case None => rc == -1 && in6[..] == old(in6[..])
            case Some(t) => rc == 0 && in6[..] == Bytes(Denote(t))
  {
    hide RefusedEarly, ParseTree, Denote, Filled, RShift, Hexlet, Bytes, GapPosition, CanonicalFrom, TokenEnd,
      Prepend, Values, ParseItems, AfterGroup, StrayAfterGroup, Halves, TailValues, Swap32, HostToNet32, ItemValue;
    var comps := new uint16[8](_ => 0);
    var shortener, idx := -1, 0;
    var v4: uint32 := 0xFFFF_FFFF;
    if RefusedEarly(s) {
      EarlyChecks(s);
      return -1;
    }
    ghost var done: seq<Item>, stray, finished := [], false, false;
    Start(s, comps[..]);
    var i := 0;
    while i < 8
      invariant 0 <= i <= 8 && 0 <= idx <= |s| && |done| == i && GapPosition(done) == shortener && !finished
      invariant Filled(comps[..], done) && in6[..] == old(in6[..])
      invariant ParseTree(s) == Prepend(done, ParseItems(s, idx, i, shortener != -1, stray))
    {
      if idx == |s| {
        EndOfText(s, done, shortener != -1, stray);
        if shortener == -1 {
          return -1;
        }
        ShiftAtEnd(comps[..], Tree(done, if stray then Stray else Nothing));
        assert EndsInZeros(comps[..], 8 - i);
        RShiftArray(comps, shortener, 8 - i);
        finished := true;
        break;
      }
      var isDotted := false;
      if i == 6 || (i < 6 && shortener != -1) {
        var rc4;
        rc4, v4 := InetAddrCanonicalAt(order, s, idx, v4);
        isDotted := rc4 != -1;
      }
      if isDotted {
        ghost var tree := Tree(done, Dotted(s[idx..]));
        EmbeddedAddress(order, s, idx, done, shortener != -1, stray);
        PlaceDotted(comps, i, shortener, NetToHost32(order, v4), tree);
        idx := |s|;
        finished := true;
        break;
      }
      if |s| - idx >= 2 && At(s, idx) == ':' && At(s, idx + 1) == ':' {
        ShortenerToken(s, idx, done, shortener != -1, stray);
        if shortener != -1 {
          return -1;
        }
        if |s| - idx >= 3 && At(s, idx + 2) == ':' {
          assert s[idx + 2] == ':';
          return -1;
        }
        FillGap(comps[..], done);
        shortener := i;
        idx := idx + 2;
        done, stray := done + [Gap], false;
      } else {
        GroupToken(s, idx, done, shortener != -1, stray);
        var hexlet := ParseInet6Hexlet(s, idx);
        if hexlet == -1 {
          return -1;
        }
        FillGroup(comps[..], done, Token(s, idx, ':'));
        comps[i] := hexlet;
        done, stray := done + [Group(Token(s, idx, ':'))], StrayAfterGroup(s, idx);
        idx := SkipGroup(s, idx);
      }
      i := i + 1;
    }
    if !finished {
      EndOfSlots(s, idx, done, shortener != -1, stray, comps[..]);
    }
    if idx != |s| {
      return -1;
    }
    Inet6ArrayToSaddr(comps, in6);
    rc := 0;
  }

  lemma Start(s: string, cells: seq<uint16>)
    requires cells == Zeros(8)
    ensures Filled(cells, []) && GapPosition([]) == -1
    ensures ParseTree(s) == Prepend([], ParseItems(s, 0, 0, false, false))
  {
    var r := ParseItems(s, 0, 0, false, false);
    if r.Some? {
      assert [] + r.value.items == r.value.items;
    }
  }

  lemma EndOfText(s: string, done: seq<Item>, gap: bool, stray: bool)
    requires |done| < 8
    ensures Prepend(done, ParseItems(s, |s|, |done|, gap, stray))
            == if gap then Some(Tree(done, if stray then Stray else Nothing)) else None
  {
    assert done + [] == done;
  }

  lemma EndOfSlots(s: string, idx: nat, done: seq<Item>, gap: bool, stray: bool, cells: seq<uint16>)
    requires idx <= |s| && |done| == 8 && Filled(cells, done)
    ensures var r := Prepend(done, ParseItems(s, idx, 8, gap, stray));
            if idx == |s| then r.Some? && cells == Denote(r.value) else r == None
  {
    assert done + [] == done;
  }

  lemma EmbeddedAddress(order: ByteOrder, s: string, idx: nat, done: seq<Item>, gap: bool, stray: bool)
    requires idx < |s| && |done| < 8 && DottedAllowed(|done|, gap) && CanonicalFrom(s, idx).Some?
    ensures Prepend(done, ParseItems(s, idx, |done|, gap, stray)) == Some(Tree(done, Dotted(s[idx..])))
    ensures var x := CanonicalFrom(s, idx).value;
            TailValues(Dotted(s[idx..])) == Halves(x) && NetToHost32(order, HostToNet32(order, x)) == x
  {
    hide CanonicalFrom, CanonicalAddress, NetToHost32, HostToNet32, Halves;
    assert done + [] == done;
    NetHostCancel(order, CanonicalFrom(s, idx).value);
    ParsingAtIsParsingTheSuffix(s, idx);
  }

  lemma NothingToPrepend(done: seq<Item>)
    ensures Prepend(done, None) == None
  {
  }

  lemma ShortenerToken(s: string, idx: nat, done: seq<Item>, gap: bool, stray: bool)
    requires idx < |s| && |done| < 8 && GapAt(s, idx) && !(DottedAllowed(|done|, gap) && CanonicalFrom(s, idx).Some?)
    ensures Prepend(done, ParseItems(s, idx, |done|, gap, stray))
            == if gap || (|s| - idx >= 3 && s[idx + 2] == ':') then None
               else Prepend(done + [Gap], ParseItems(s, idx + 2, |done| + 1, true, false))
    ensures GapPosition(done + [Gap]) == |done|
  {
    hide Prepend, Values, GapPosition, Hexlet, CanonicalFrom, TokenEnd;
    SnocGap(done, Gap);
    PrependSnoc(done, Gap, ParseItems(s, idx + 2, |done| + 1, true, false));
    NothingToPrepend(done);
  }

  lemma GroupToken(s: string, idx: nat, done: seq<Item>, gap: bool, stray: bool)
    requires idx < |s| && |done| < 8 && !GapAt(s, idx) && !(DottedAllowed(|done|, gap) && CanonicalFrom(s, idx).Some?)
    ensures var g := Group(Token(s, idx, ':'));
            && Prepend(done, ParseItems(s, idx, |done|, gap, stray))
               == (if Hexlet(g.text) < 0 then None
                   else Prepend(done + [g],
                                ParseItems(s, AfterGroup(s, idx), |done| + 1, gap, StrayAfterGroup(s, idx))))
            && GapPosition(done + [g]) == GapPosition(done)
  {
    var g := Group(Token(s, idx, ':'));
    hide Prepend, Values, GapPosition, Hexlet, CanonicalFrom, TokenEnd;
    SnocGap(done, g);
    PrependSnoc(done, g, ParseItems(s, AfterGroup(s, idx), |done| + 1, gap, StrayAfterGroup(s, idx)));
    NothingToPrepend(done);
  }
}
