/** The text of a dump, character by character: lines, labels, fields, spaces and the text column. */
module HexdumpText {
  import opened Text
  import opened Numbers
  import opened Numerals
  import opened Hexdump
  import opened HexdumpLaws

  // ----- Fields and labels -----

  function Table(uppercase: bool): string {
    if uppercase then UPPER else LOWER
  }

  /** A field by the table of digits. */
  predicate Shows(f: string, c: Cell, uppercase: bool) {
    match c
    case Unknown => f == "??"
    case NonExistent => f == "  "
    case Byte(b) => f == [Table(uppercase)[b / 16], Table(uppercase)[b % 16]]
  }

  lemma FieldText(c: Cell, uppercase: bool)
    ensures Shows(Field(c, uppercase), c, uppercase)
  {
    if c.Byte? {
      DigitTable(c.value / 16);
      DigitTable(c.value % 16);
      hide DigitFor, ToUpper;
    }
  }

  lemma TableDigit(c: char, uppercase: bool)
    ensures IsHexDigit(c, uppercase) <==> c in Table(uppercase)
  {
    if IsHexDigit(c, uppercase) {
      var d := if IsDigit(c) then (c - '0') as int else 10 + (if uppercase then c - 'A' else c - 'a') as int;
      LowerTable(d);
      UpperTable(d);
      assert Table(uppercase)[d] == c;
    }
    if c in Table(uppercase) {
      var d :| 0 <= d < 16 && Table(uppercase)[d] == c;
      LowerTable(d);
      UpperTable(d);
    }
  }

  /**
   A label is the hexadecimal numeral of the offset modulo 2^64 in the chosen case, at least eight digits long, and
   without a leading zero if it is longer.
   */
  lemma LabelText(voffset: int, uppercase: bool)
    ensures var s := Label(voffset, uppercase);
            && Numeral(16, s, voffset % 0x1_0000_0000_0000_0000)
            && (forall c :: c in s ==> c in Table(uppercase))
            && |s| >= 8 && (|s| > 8 ==> s[0] != '0')
  {
    hide Label, Positional, Numeral, Table, IsHexDigit;
    var s := Label(voffset, uppercase);
    LabelRoundTrip(voffset, uppercase);
    NumeralIs(16, s, voffset % 0x1_0000_0000_0000_0000);
    forall c | c in s ensures c in Table(uppercase) {
      TableDigit(c, uppercase);
    }
  }

  // ----- Rows -----

  lemma {:induction false} SpacesBetween(l: Layout, get: GetData, offset: int, n: nat, idx: nat)
    requires Legal(l) && 0 < idx < n <= l.bytesPerLine
    ensures var hex := HexLine(l, get, offset, n);
            && Start(l, idx - 1) + 2 <= Start(l, idx) <= |hex|
            && AllSpaces(hex[Start(l, idx - 1) + 2..Start(l, idx)])
  {
    hide Field, Gap;
    var before := HexLine(l, get, offset, n - 1);
    LineLength(l, get, offset, n);
    LineLength(l, get, offset, n - 1);
    GapIsSpaces(l, n - 1);
    if idx == n - 1 {
      assert HexLine(l, get, offset, n)[Start(l, idx - 1) + 2..Start(l, idx)] == Gap(l, idx);
    } else {
      SpacesBetween(l, get, offset, n - 1, idx);
      SliceOfPrefix(HexLine(l, get, offset, n), before, Start(l, idx - 1) + 2, Start(l, idx));
    }
  }

  lemma GapIsSpaces(l: Layout, idx: nat)
    requires Legal(l) && idx < l.bytesPerLine
    ensures AllSpaces(Gap(l, idx))
  {
  }

  lemma SliceOfPrefix(s: string, t: string, i: nat, j: nat)
    requires i <= j <= |t| <= |s| && s[..|t|] == t
    ensures s[i..j] == t[i..j]
  {
    assert forall k :: 0 <= k < |t| ==> s[..|t|][k] == s[k];
    assert s[i..j] == t[i..j];
  }

  /** Field idx, and the spaces in front of it, as part of a body. */
  predicate FieldIn(l: Layout, body: string, c: Cell, idx: nat)
    requires Legal(l) && idx < l.bytesPerLine
  {
    && Start(l, idx) + 2 <= |body|
    && Shows(body[Start(l, idx)..Start(l, idx) + 2], c, l.uppercase)
    && (idx > 0 ==>
          Start(l, idx - 1) + 2 <= Start(l, idx) && AllSpaces(body[Start(l, idx - 1) + 2..Start(l, idx)]))
  }

  lemma FieldOfLine(l: Layout, get: GetData, offset: int, n: nat, idx: nat, body: string)
    requires Legal(l) && idx < n <= l.bytesPerLine
    requires var hex := HexLine(l, get, offset, n); |hex| <= |body| && body[..|hex|] == hex
    ensures FieldIn(l, body, get(offset + idx), idx)
  {
    hide Shows, Start, HexLine, AllSpaces, Field;
    var hex, at := HexLine(l, get, offset, n), Start(l, idx);
    FieldStands(l, get, offset, n, idx);
    FieldText(get(offset + idx), l.uppercase);
    SliceOfPrefix(body, hex, at, at + 2);
    if idx > 0 {
      SpacesBetween(l, get, offset, n, idx);
      SliceOfPrefix(body, hex, Start(l, idx - 1) + 2, at);
    }
  }

  /** With a text column: all fields, a separator, and a character for each cell up to the last one shown. */
  lemma TextualBody(l: Layout, get: GetData, offset: int, idx: nat)
    requires Legal(l) && l.textual && idx < l.bytesPerLine
    ensures var body := Body(l, get, offset);
            && FieldIn(l, body, get(offset + idx), idx)
            && |body| >= RowWidth(l) + 3 && body[RowWidth(l)..RowWidth(l) + 3] == " : "
            && |body| == RowWidth(l) + 3 + LastShown(get, offset, l.bytesPerLine)
  {
    hide HexLine, LastShown, TextLine, FieldIn;
    LineLength(l, get, offset, l.bytesPerLine);
    hide Start;
    var hex, body := HexLine(l, get, offset, l.bytesPerLine), Body(l, get, offset);
    assert body[..|hex|] == hex;
    FieldOfLine(l, get, offset, l.bytesPerLine, idx, body);
  }

  /** Without one: the fields up to the last one shown, and nothing behind it. */
  lemma CutBody(l: Layout, get: GetData, offset: int, idx: nat)
    requires Legal(l) && !l.textual && RowWidth(l) < TWO_TO_THE_64
    requires idx < LastShown(get, offset, l.bytesPerLine)
    ensures var body := Body(l, get, offset);
            && FieldIn(l, body, get(offset + idx), idx)
            && |body| == Start(l, LastShown(get, offset, l.bytesPerLine) - 1) + 2
  {
    hide HexLine, LastShown, FieldIn, Start, Cut;
    var n, last := l.bytesPerLine, LastShown(get, offset, l.bytesPerLine);
    CutEndsBehindLast(l, last);
    LineLength(l, get, offset, last);
    LinePrefix(l, get, offset, last, n);
    var body := Body(l, get, offset);
    assert body == HexLine(l, get, offset, last);
    FieldOfLine(l, get, offset, last, idx, body);
  }

  /** If nothing is shown: spaces, as many as the wrapped length says and as there are columns. */
  lemma BlankBody(l: Layout, get: GetData, offset: int)
    requires Legal(l) && !l.textual && LastShown(get, offset, l.bytesPerLine) == 0
    ensures var body, wrapped := Body(l, get, offset),
              ((TWO_TO_THE_64 - 1) / l.bytesPerGroup * l.spacePerGroup - l.spacePerByte) % TWO_TO_THE_64;
            AllSpaces(body) && |body| == if wrapped <= RowWidth(l) then wrapped else RowWidth(l)
  {
    hide Cut, LastShown, HexLine, Start;
    CutOfBlankRow(l);
    LineLength(l, get, offset, l.bytesPerLine);
    BlankLine(l, get, offset, l.bytesPerLine);
  }

  // ----- Lines -----

  /** How many rows a range takes. */
  function RowCount(l: Layout, offset: int, end: int): nat
    requires Legal(l)
  {
    if offset > end then 0 else (end - offset) / l.bytesPerLine + 1
  }

  lemma OneRowLess(l: Layout, offset: int, end: int)
    requires Legal(l) && offset <= end
    ensures RowCount(l, offset, end) == RowCount(l, offset + l.bytesPerLine, end) + 1
  {
    var b := l.bytesPerLine;
    if end - offset < b {
      DivisionIs(end - offset, b, 0, end - offset);
    } else {
      var q, r := (end - offset - b) / b, (end - offset - b) % b;
      assert end - offset == b * (q + 1) + r;
      DivisionIs(end - offset, b, q + 1, r);
    }
  }

  function LineOf(l: Layout, get: GetData, offset: int, vzero: int, k: nat): string
    requires Legal(l)
  {
    var at := offset + k * l.bytesPerLine;
    Label(vzero + at, l.uppercase) + " : " + Body(l, get, at)
  }

  lemma NextLine(l: Layout, get: GetData, offset: int, vzero: int, k: nat)
    requires Legal(l) && k > 0
    ensures LineOf(l, get, offset, vzero, k) == LineOf(l, get, offset + l.bytesPerLine, vzero, k - 1)
  {
    Distribute(k - 1, 1, l.bytesPerLine);
  }

  lemma FirstLine(l: Layout, get: GetData, offset: int, vzero: int)
    requires Legal(l)
    ensures Row(l, get, offset, vzero + offset) == LineOf(l, get, offset, vzero, 0) + "\n"
    ensures Free(LineOf(l, get, offset, vzero, 0), '\n')
  {
    hide Label, Body;
    var head, body := Label(vzero + offset, l.uppercase), Body(l, get, offset);
    LabelIsFree(vzero + offset, l.uppercase);
    BodyIsFree(l, get, offset);
    SeparatorIsFree();
    FreeSum(head, " : ", '\n');
    FreeSum(head + " : ", body, '\n');
    assert head + " : " + body + "\n" == (head + " : " + body) + "\n";
  }

  lemma LabelIsFree(voffset: int, uppercase: bool)
    ensures Free(Label(voffset, uppercase), '\n')
  {
    hide Label, Positional;
    LabelRoundTrip(voffset, uppercase);
  }

  lemma NoLines()
    ensures Split("", '\n') == [""]
  {
    JoinOne("", '\n');
    SplitJoin([""], '\n');
  }

  /** A dump is one line for each row of the range: the label of the row, a separator, and its body. */
  lemma {:induction false} LinesOfDump(l: Layout, get: GetData, offset: int, end: int, vzero: int)
    requires Legal(l)
    ensures var n, lines := RowCount(l, offset, end), Split(Dump(l, get, offset, end, vzero), '\n');
            && |lines| == n + 1 && lines[n] == ""
            && forall k :: 0 <= k < n ==> lines[k] == LineOf(l, get, offset, vzero, k)
    decreases end - offset
  {
    hide Row, Split, LineOf, RowCount;
    var n := RowCount(l, offset, end);
    if offset > end {
      NoLines();
      NoRows(l, offset, end);
    } else {
      var next := offset + l.bytesPerLine;
      LinesOfDump(l, get, next, end, vzero);
      OneRowLess(l, offset, end);
      FirstLine(l, get, offset, vzero);
      var first, rest := LineOf(l, get, offset, vzero, 0), Dump(l, get, next, end, vzero);
      SplitCons(first, rest, '\n');
      hide Dump;
      var lines := Split(Dump(l, get, offset, end, vzero), '\n');
      forall k | 0 <= k < n ensures lines[k] == LineOf(l, get, offset, vzero, k) {
        if k > 0 {
          NextLine(l, get, offset, vzero, k);
        }
      }
    }
  }

  lemma NoRows(l: Layout, offset: int, end: int)
    requires Legal(l) && offset > end
    ensures RowCount(l, offset, end) == 0
  {
  }
}
