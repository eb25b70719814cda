/** Where the fields of a dump stand, and what can be read back from it. */
module HexdumpLaws {
  import opened Machine
  import opened Numbers
  import opened Text
  import opened Hexdump

  // ----- Columns -----

  /** Where field idx of a row starts, counted from the end of the address column. */
  function Start(l: Layout, idx: nat): nat
    requires Legal(l) && idx < l.bytesPerLine
  {
    if idx == 0 then 0 else Start(l, idx - 1) + 2 + |Gap(l, idx)|
  }

  lemma {:induction false} LineLength(l: Layout, get: GetData, offset: int, n: nat)
    requires Legal(l) && n <= l.bytesPerLine
    ensures |HexLine(l, get, offset, n)| == if n == 0 then 0 else Start(l, n - 1) + 2
  {
    hide Gap;
    if n == 0 {
    } else {
      LineLength(l, get, offset, n - 1);
      NoGapFirst(l);
    }
  }

  lemma NoGapFirst(l: Layout)
    requires Legal(l)
    ensures Gap(l, 0) == ""
  {
  }

  lemma DivisionIs(n: nat, b: nat, q: nat, r: nat)
    requires r < b && n == b * q + r
    ensures n / b == q && n % b == r
  {
    SmallMultiple(b, n / b - q, r - n % b);
  }

  lemma SmallMultiple(b: int, d: int, e: int)
    requires b * d == e && -b < e < b
    ensures d == 0
  {
    if d > 0 {
      AtLeastOnce(b, d);
    } else if d < 0 {
      AtLeastOnce(b, -d);
    }
  }

  lemma AtLeastOnce(b: int, d: int)
    requires b > 0 && d > 0
    ensures b * d >= b
  {
    assert b * d == b + b * (d - 1);
    assert b * (d - 1) >= 0;
  }

  lemma DivisionStep(n: nat, b: nat)
    requires b > 0
    ensures (n + 1) / b == n / b + if (n + 1) % b == 0 then 1 else 0
  {
    var q, r := n / b, n % b;
    if r + 1 < b {
      DivisionIs(n + 1, b, q, r + 1);
    } else {
      assert n + 1 == b * q + b == b * (q + 1) + 0;
      DivisionIs(n + 1, b, q + 1, 0);
    }
  }

  lemma Distribute(a: nat, b: nat, c: nat)
    ensures (a + b) * c == a * c + b * c
  {
  }

  /** Field idx starts behind idx fields of two characters, their spaces, and one group space for each full group. */
  lemma {:induction false} Columns(l: Layout, idx: nat)
    requires Legal(l) && l.bytesPerGroup > 0 && idx < l.bytesPerLine
    ensures Start(l, idx) == 2 * idx + idx * l.spacePerByte + idx / l.bytesPerGroup * l.spacePerGroup
  {
    if idx > 0 {
      Columns(l, idx - 1);
      DivisionStep(idx - 1, l.bytesPerGroup);
      Distribute(idx - 1, 1, l.spacePerByte);
      var full := if idx % l.bytesPerGroup == 0 then 1 else 0;
      Distribute((idx - 1) / l.bytesPerGroup, full, l.spacePerGroup);
      GapLength(l, idx);
      hide Gap, Legal;
    } else {
      DivisionIs(0, l.bytesPerGroup, 0, 0);
    }
  }

  /** Without groups there are none of their spaces. */
  lemma {:induction false} ColumnsWithoutGroups(l: Layout, idx: nat)
    requires Legal(l) && l.bytesPerGroup == 0 && idx < l.bytesPerLine
    ensures Start(l, idx) == 2 * idx + idx * l.spacePerByte
  {
    if idx == 0 {
    } else {
      ColumnsWithoutGroups(l, idx - 1);
      Distribute(idx - 1, 1, l.spacePerByte);
    }
  }

  lemma GapLength(l: Layout, idx: nat)
    requires Legal(l) && l.bytesPerGroup > 0 && 0 < idx < l.bytesPerLine
    ensures |Gap(l, idx)| == l.spacePerByte + if idx % l.bytesPerGroup == 0 then l.spacePerGroup else 0
  {
  }

  /** The width of a full row of fields. */
  function RowWidth(l: Layout): nat
    requires Legal(l)
  {
    Start(l, l.bytesPerLine - 1) + 2
  }

  lemma {:induction false} StartGrows(l: Layout, a: nat, b: nat)
    requires Legal(l) && a < b < l.bytesPerLine
    ensures Start(l, a) + 2 <= Start(l, b)
  {
    hide Gap;
    if a >= b - 1 {
    } else {
      StartGrows(l, a, b - 1);
    }
  }

  /** In a row that fits into memory the cut ends right behind the last shown field. */
  lemma CutEndsBehindLast(l: Layout, last: nat)
    requires Legal(l) && l.bytesPerGroup > 0 && 0 < last <= l.bytesPerLine && RowWidth(l) < TWO_TO_THE_64
    ensures Cut(l, last) == Start(l, last - 1) + 2
  {
    if last < l.bytesPerLine {
      StartGrows(l, last - 1, l.bytesPerLine - 1);
    }
    Columns(l, last - 1);
    Twice(l, last - 1);
    hide Legal, Start, Unsigned;
    SmallModulus(last - 1);
    SmallModulus(Start(l, last - 1) + 2);
  }

  lemma Twice(l: Layout, idx: nat)
    requires Legal(l) && l.bytesPerGroup > 0 && idx < l.bytesPerLine
    ensures 2 * idx <= Start(l, idx)
  {
    Columns(l, idx);
    assert idx * l.spacePerByte >= 0;
    assert idx / l.bytesPerGroup >= 0;
    assert idx / l.bytesPerGroup * l.spacePerGroup >= 0;
  }

  lemma SmallModulus(n: nat)
    requires n < TWO_TO_THE_64
    ensures Unsigned(n) == n
  {
  }

  /** For a row that shows nothing, the subtraction of one wraps around. */
  lemma CutOfBlankRow(l: Layout)
    requires Legal(l) && l.bytesPerGroup > 0
    ensures Cut(l, 0) == Unsigned((TWO_TO_THE_64 - 1) / l.bytesPerGroup * l.spacePerGroup - l.spacePerByte)
  {
    assert Unsigned(-1) == TWO_TO_THE_64 - 1;
    var groups := (TWO_TO_THE_64 - 1) / l.bytesPerGroup * l.spacePerGroup;
    assert (TWO_TO_THE_64 - 1) * l.spacePerByte == TWO_TO_THE_64 * l.spacePerByte - l.spacePerByte;
    WrapAround(groups - l.spacePerByte, l.spacePerByte);
  }

  lemma WrapAround(x: int, k: nat)
    ensures Unsigned(TWO_TO_THE_64 * k + x) == Unsigned(x)
  {
  }

  /** A row that shows nothing is meant to be cut to nothing; it is, exactly if the wrapped length is 0. */
  lemma BlankRowIsEmpty(l: Layout, get: GetData, offset: int)
    requires Legal(l) && !l.textual && LastShown(get, offset, l.bytesPerLine) == 0
    ensures Body(l, get, offset) == ""
            <==> Unsigned((TWO_TO_THE_64 - 1) / l.bytesPerGroup * l.spacePerGroup - l.spacePerByte) == 0
  {
    hide Cut, Unsigned, LastShown, HexLine, Start;
    CutOfBlankRow(l);
    LineLength(l, get, offset, l.bytesPerLine);
  }

  /** Three missing bytes, a space between them: all eight columns are printed. */
  lemma BlankRowIsKept()
    ensures Body(Layout(3, 8, 1, 0, false, false), (_: int) => NonExistent, 0) == "        "
  {
    var l, get := Layout(3, 8, 1, 0, false, false), (_: int) => NonExistent;
    CutOfBlankRow(l);
    LineLength(l, get, 0, 3);
    assert Start(l, 1) == 3 && Start(l, 2) == 6;
    BlankLine(l, get, 0, 3);
    assert LastShown(get, 0, 3) == 0;
  }

  // ----- Reading a row -----

  function DecodeField(f: string): Cell
    requires |f| == 2
  {
    if f == "??" then Unknown
    else if IsXDigit(f[0]) && IsXDigit(f[1]) then Byte(ConvertDigit(16, f[0]) * 16 + ConvertDigit(16, f[1]))
    else NonExistent
  }

  lemma FieldRoundTrip(c: Cell, uppercase: bool)
    ensures DecodeField(Field(c, uppercase)) == c
  {
    if c.Byte? {
      CasedDigit(c.value / 16, uppercase);
      CasedDigit(c.value % 16, uppercase);
      hide ConvertDigit, IsXDigit, DigitFor, ToUpper;
    }
  }

  lemma CasedDigit(d: nat, uppercase: bool)
    requires d < 16
    ensures var c := if uppercase then ToUpper(DigitFor(d)) else DigitFor(d);
            IsXDigit(c) && ConvertDigit(16, c) == d && c != '?' && c != '\n'
  {
  }

  lemma {:induction false} FieldStands(l: Layout, get: GetData, offset: int, n: nat, idx: nat)
    requires Legal(l) && idx < n <= l.bytesPerLine
    ensures var hex := HexLine(l, get, offset, n);
            && Start(l, idx) + 2 <= |hex|
            && hex[Start(l, idx)..Start(l, idx) + 2] == Field(get(offset + idx), l.uppercase)
  {
    hide Gap, Field;
    var before := HexLine(l, get, offset, n - 1);
    LineLength(l, get, offset, n - 1);
    if idx < n - 1 {
      FieldStands(l, get, offset, n - 1, idx);
      assert HexLine(l, get, offset, n)[..|before|] == before;
    } else {
      NoGapFirst(l);
      assert Start(l, idx) == |before| + |Gap(l, idx)| && offset + idx == offset + n - 1;
    }
  }

  lemma {:induction false} LinePrefix(l: Layout, get: GetData, offset: int, k: nat, n: nat)
    requires Legal(l) && k <= n <= l.bytesPerLine
    ensures var hex, head := HexLine(l, get, offset, n), HexLine(l, get, offset, k);
            |head| <= |hex| && hex[..|head|] == head
  {
    hide Gap, Field;
    if k == n {
    } else {
      LinePrefix(l, get, offset, k, n - 1);
      var head := HexLine(l, get, offset, k);
      assert HexLine(l, get, offset, n)[..|head|] == HexLine(l, get, offset, n - 1)[..|head|];
    }
  }

  predicate AllSpaces(s: string) {
    forall i :: 0 <= i < |s| ==> s[i] == ' '
  }

  lemma {:induction false} BlankLine(l: Layout, get: GetData, offset: int, n: nat)
    requires Legal(l) && n <= l.bytesPerLine
    requires forall x :: offset <= x < offset + n ==> get(x) == NonExistent
    ensures AllSpaces(HexLine(l, get, offset, n))
  {
    if n == 0 {
    } else {
      BlankLine(l, get, offset, n - 1);
      assert get(offset + n - 1) == NonExistent;
    }
  }

  /** Field idx of a row body, by its column; a field that is not there, or not all there, shows nothing. */
  function DecodeAt(l: Layout, body: string, idx: nat): Cell
    requires Legal(l) && idx < l.bytesPerLine
  {
    if Start(l, idx) + 2 <= |body| then DecodeField(body[Start(l, idx)..Start(l, idx) + 2]) else NonExistent
  }

  /** Every field of every row can be read back. */
  lemma BodyRoundTrip(l: Layout, get: GetData, offset: int, idx: nat)
    requires Legal(l) && idx < l.bytesPerLine && (!l.textual ==> RowWidth(l) < TWO_TO_THE_64)
    ensures DecodeAt(l, Body(l, get, offset), idx) == get(offset + idx)
  {
    hide Field, Gap, Start, HexLine, LastShown, Cut, DecodeField, TextLine;
    var n := l.bytesPerLine;
    var hex, last := HexLine(l, get, offset, n), LastShown(get, offset, n);
    FieldStands(l, get, offset, n, idx);
    FieldRoundTrip(get(offset + idx), l.uppercase);
    if l.textual {
      assert Body(l, get, offset)[Start(l, idx)..Start(l, idx) + 2] == hex[Start(l, idx)..Start(l, idx) + 2];
    } else if last == 0 {
      BlankLine(l, get, offset, n);
      BlankFieldReads(l, Body(l, get, offset), idx);
    } else {
      CutEndsBehindLast(l, last);
      LineLength(l, get, offset, n);
      LineLength(l, get, offset, last);
      LinePrefix(l, get, offset, last, n);
      if idx < last {
        FieldStands(l, get, offset, last, idx);
      } else {
        StartGrows(l, last - 1, idx);
      }
    }
  }

  lemma BlankFieldReads(l: Layout, body: string, idx: nat)
    requires Legal(l) && idx < l.bytesPerLine && AllSpaces(body)
    ensures DecodeAt(l, body, idx) == NonExistent
  {
    hide Start;
    if Start(l, idx) + 2 <= |body| {
      assert body[Start(l, idx)..Start(l, idx) + 2] == "  ";
    }
  }

  /** The text column starts at a fixed place, ends with the last shown cell, and shows printable bytes as they are. */
  lemma TextColumn(l: Layout, get: GetData, offset: int, k: nat)
    requires Legal(l) && l.textual
    ensures var last, body := LastShown(get, offset, l.bytesPerLine), Body(l, get, offset);
            && |body| == RowWidth(l) + 3 + last
            && (k < last ==>
                  var c := body[RowWidth(l) + 3 + k];
                  match get(offset + k)
                  case Unknown => c == '?'
                  case NonExistent => c == ' '
                  case Byte(b) => if ' ' as int <= b <= '~' as int then c as int == b else c == '.')
  {
    hide HexLine, LastShown, Start;
    LineLength(l, get, offset, l.bytesPerLine);
    var text := TextLine(get, offset, l.bytesPerLine);
    assert k < l.bytesPerLine ==> text[k] == TextCharacter(get(offset + k));
  }

  // ----- Reading the address column -----

  predicate IsHexDigit(c: char, uppercase: bool) {
    IsDigit(c) || if uppercase then 'A' <= c <= 'F' else 'a' <= c <= 'f'
  }

  lemma {:induction false} PrintedIsLowerCase(n: nat)
    ensures forall k :: 0 <= k < |PrintIn(16, n)| ==> IsHexDigit(PrintIn(16, n)[k], false)
  {
    if n < 16 {
    } else {
      PrintedIsLowerCase(n / 16);
    }
  }

  lemma {:induction false} LeadingZeros(k: nat, s: string)
    requires AllDigits(16, s)
    ensures var padded := seq(k, _ => '0') + s;
            AllDigits(16, padded) && Positional(16, padded) == Positional(16, s)
  {
    hide Positional;
    if k == 0 {
      assert seq(k, _ => '0') + s == s;
    } else {
      LeadingZeros(k - 1, s);
      ZeroKeepsValue(16, seq(k - 1, _ => '0') + s);
      assert seq(k, _ => '0') + s == "0" + (seq(k - 1, _ => '0') + s);
    }
  }

  lemma CasedNumber(n: nat, uppercase: bool)
    ensures var s := Cased(PrintIn(16, n), uppercase);
            && AllDigits(16, s) && Positional(16, s) == n
            && (forall k :: 0 <= k < |s| ==> IsHexDigit(s[k], uppercase))
            && (|s| > 1 ==> s[0] != '0')
  {
    PrintedIsLowerCase(n);
    hide PrintIn, Positional;
    UpperKeepsValue(PrintIn(16, n));
  }

  /**
   The address column is the offset modulo 2^64, in hexadecimal digits of the chosen case: in eight digits, with zeros
   in front, or in as many as it needs beyond that.
   */
  lemma LabelRoundTrip(voffset: int, uppercase: bool)
    ensures var s := Label(voffset, uppercase);
            && (forall k :: 0 <= k < |s| ==> IsHexDigit(s[k], uppercase))
            && AllDigits(16, s) && Positional(16, s) == Unsigned(voffset)
            && |s| >= 8 && (|s| > 8 ==> s[0] != '0')
  {
    hide PrintIn, Positional, Cased, AllDigits;
    var digits := Cased(PrintIn(16, Unsigned(voffset)), uppercase);
    CasedNumber(Unsigned(voffset), uppercase);
    LeadingZeros(if |digits| < 8 then 8 - |digits| else 0, digits);
  }

  // ----- Reading a dump -----

  function Cells(get: GetData, offset: int, n: nat): (cells: seq<Cell>)
    ensures |cells| == n
  {
    seq(n, k requires 0 <= k < n => get(offset + k))
  }

  function DecodeBody(l: Layout, body: string): (cells: seq<Cell>)
    requires Legal(l)
    ensures |cells| == l.bytesPerLine
  {
    seq(l.bytesPerLine, idx requires 0 <= idx < l.bytesPerLine => DecodeAt(l, body, idx))
  }

  /** The cells of a dump, row by row: what stands between the address column and the end of the line. */
  function Decode(l: Layout, offset: int, end: int, vzero: int, text: string): seq<Cell>
    requires Legal(l)
    decreases end - offset
  {
    var column := |Label(vzero + offset, l.uppercase)| + 3;
    if offset > end || |text| < column then []
    else
      var eol := TokenEnd(text, column, '\n');
      DecodeBody(l, text[column..eol])
      + Decode(l, offset + l.bytesPerLine, end, vzero, if eol < |text| then text[eol + 1..] else "")
  }

  /** How many offsets the rows from `offset` on cover. */
  function Covered(l: Layout, offset: int, end: int): nat
    requires Legal(l)
    decreases end - offset
  {
    if offset > end then 0 else l.bytesPerLine + Covered(l, offset + l.bytesPerLine, end)
  }

  lemma FreeSum(s: string, t: string, c: char)
    ensures Free(s, c) && Free(t, c) ==> Free(s + t, c)
  {
  }

  lemma FieldIsFree(c: Cell, uppercase: bool)
    ensures Free(Field(c, uppercase), '\n')
  {
    if c.Byte? {
      CasedDigit(c.value / 16, uppercase);
      CasedDigit(c.value % 16, uppercase);
      hide ConvertDigit, IsXDigit, DigitFor, ToUpper;
    }
  }

  lemma GapIsFree(l: Layout, idx: nat)
    requires Legal(l) && idx < l.bytesPerLine
    ensures Free(Gap(l, idx), '\n')
  {
  }

  lemma {:induction false} LineIsFree(l: Layout, get: GetData, offset: int, n: nat)
    requires Legal(l) && n <= l.bytesPerLine
    ensures Free(HexLine(l, get, offset, n), '\n')
  {
    hide Gap, Field, Free;
    if n > 0 {
      var gap, field := Gap(l, n - 1), Field(get(offset + n - 1), l.uppercase);
      LineIsFree(l, get, offset, n - 1);
      GapIsFree(l, n - 1);
      FieldIsFree(get(offset + n - 1), l.uppercase);
      FreeSum(gap, field, '\n');
      FreeSum(HexLine(l, get, offset, n - 1), gap + field, '\n');
    } else {
      NothingIsFree();
    }
  }

  lemma NothingIsFree()
    ensures Free("", '\n')
  {
  }

  lemma TextIsFree(get: GetData, offset: int, n: nat, last: nat)
    requires last <= n
    ensures Free(TextLine(get, offset, n)[..last], '\n')
  {
    var text := TextLine(get, offset, n);
    assert forall k :: 0 <= k < n ==> text[k] == TextCharacter(get(offset + k));
  }

  /** A row body never holds the character that ends it. */
  lemma BodyIsFree(l: Layout, get: GetData, offset: int)
    requires Legal(l)
    ensures Free(Body(l, get, offset), '\n')
  {
    hide HexLine, LastShown, TextLine, Cut, Free;
    var n := l.bytesPerLine;
    var hex, last := HexLine(l, get, offset, n), LastShown(get, offset, n);
    LineIsFree(l, get, offset, n);
    if l.textual {
      var text := TextLine(get, offset, n)[..last];
      TextIsFree(get, offset, n, last);
      SeparatorIsFree();
      FreeSum(hex, " : ", '\n');
      FreeSum(hex + " : ", text, '\n');
    } else {
      PrefixIsFree(hex, Cut(l, last));
    }
  }

  lemma SeparatorIsFree()
    ensures Free(" : ", '\n')
  {
  }

  lemma PrefixIsFree(s: string, n: nat)
    requires Free(s, '\n')
    ensures Free(Prefix(s, n), '\n')
  {
  }

  lemma RowIsFound(l: Layout, get: GetData, offset: int, voffset: int, rest: string)
    requires Legal(l)
    ensures var text, column := Row(l, get, offset, voffset) + rest, |Label(voffset, l.uppercase)| + 3;
            && column <= |text|
            && var eol := TokenEnd(text, column, '\n');
               eol < |text| && text[column..eol] == Body(l, get, offset) && text[eol + 1..] == rest
  {
    hide Body, Label;
    var head, body := Label(voffset, l.uppercase) + " : ", Body(l, get, offset);
    var text, eol := Row(l, get, offset, voffset) + rest, |head| + |body|;
    assert text == head + body + ("\n" + rest);
    BodyIsFree(l, get, offset);
    assert text[|head|..eol] == body;
    assert text[eol] == '\n';
    TokenEndIs(text, |head|, eol, '\n');
  }

  lemma DecodeBodyIs(l: Layout, get: GetData, offset: int)
    requires Legal(l) && (!l.textual ==> RowWidth(l) < TWO_TO_THE_64)
    ensures DecodeBody(l, Body(l, get, offset)) == Cells(get, offset, l.bytesPerLine)
  {
    hide Body, DecodeAt, RowWidth;
    forall idx | 0 <= idx < l.bytesPerLine
      ensures DecodeAt(l, Body(l, get, offset), idx) == get(offset + idx)
    {
      BodyRoundTrip(l, get, offset, idx);
    }
  }

  lemma CellsOfBoth(get: GetData, offset: int, m: nat, n: nat)
    ensures Cells(get, offset, m) + Cells(get, offset + m, n) == Cells(get, offset, m + n)
  {
  }

  lemma {:induction false} DecodedCells(l: Layout, get: GetData, offset: int, end: int, vzero: int)
    requires Legal(l) && (!l.textual ==> RowWidth(l) < TWO_TO_THE_64)
    ensures Decode(l, offset, end, vzero, Dump(l, get, offset, end, vzero))
            == Cells(get, offset, Covered(l, offset, end))
    decreases end - offset
  {
    hide Row, Decode, RowWidth, Cells;
    if offset > end {
      NoCells(get, offset);
      NothingToRead(l, offset, end, vzero);
    } else {
      var next := offset + l.bytesPerLine;
      DecodedCells(l, get, next, end, vzero);
      ReadRow(l, get, offset, end, vzero, Dump(l, get, next, end, vzero));
      CellsOfBoth(get, offset, l.bytesPerLine, Covered(l, next, end));
    }
  }

  /**
   A dump loses no information: from the text and the parameters of the call, what the read function has said about
   every offset that it covers can be read back, with or without a text column.
   */
  lemma DumpRoundTrip(l: Layout, get: GetData, offset: int, end: int, vzero: int)
    requires Legal(l) && (!l.textual ==> RowWidth(l) < TWO_TO_THE_64)
    ensures var cells := Decode(l, offset, end, vzero, Dump(l, get, offset, end, vzero));
            && |cells| == Covered(l, offset, end)
            && forall k :: 0 <= k < |cells| ==> cells[k] == get(offset + k)
  {
    hide Decode, Dump, Covered, Legal, RowWidth;
    DecodedCells(l, get, offset, end, vzero);
  }

  lemma NothingToRead(l: Layout, offset: int, end: int, vzero: int)
    requires Legal(l) && offset > end
    ensures Decode(l, offset, end, vzero, "") == []
  {
  }

  lemma ReadRow(l: Layout, get: GetData, offset: int, end: int, vzero: int, rest: string)
    requires Legal(l) && offset <= end && (!l.textual ==> RowWidth(l) < TWO_TO_THE_64)
    ensures Decode(l, offset, end, vzero, Row(l, get, offset, vzero + offset) + rest)
            == Cells(get, offset, l.bytesPerLine) + Decode(l, offset + l.bytesPerLine, end, vzero, rest)
  {
    hide Row, Label, DecodeBody, RowWidth, Cells, TokenEnd, Body;
    RowIsFound(l, get, offset, vzero + offset, rest);
    DecodeBodyIs(l, get, offset);
  }

  lemma NoCells(get: GetData, offset: int)
    ensures Cells(get, offset, 0) == []
  {
  }

  /** Two dumps of the same range that look alike show the same data. */
  lemma EqualDumpsShowEqualCells(l: Layout, get: GetData, other: GetData, offset: int, end: int, vzero: int)
    requires Legal(l) && (!l.textual ==> RowWidth(l) < TWO_TO_THE_64)
    requires Dump(l, get, offset, end, vzero) == Dump(l, other, offset, end, vzero)
    ensures forall x :: offset <= x < offset + Covered(l, offset, end) ==> get(x) == other(x)
  {
    hide Legal, RowWidth, Dump, Decode, Covered;
    DumpRoundTrip(l, get, offset, end, vzero);
    DumpRoundTrip(l, other, offset, end, vzero);
    forall x | offset <= x < offset + Covered(l, offset, end) ensures get(x) == other(x) {
      var cells := Decode(l, offset, end, vzero, Dump(l, get, offset, end, vzero));
      assert cells[x - offset] == get(offset + (x - offset));
      assert cells[x - offset] == other(offset + (x - offset));
    }
  }

  lemma {:induction false} CoversTheRange(l: Layout, offset: int, end: int)
    requires Legal(l)
    ensures offset <= end ==> end < offset + Covered(l, offset, end) <= end + l.bytesPerLine
    ensures Covered(l, offset, end) % l.bytesPerLine == 0
    decreases end - offset
  {
    if offset <= end {
      CoversTheRange(l, offset + l.bytesPerLine, end);
      var n := Covered(l, offset + l.bytesPerLine, end);
      hide Legal, Covered;
      DivisionIs(n + l.bytesPerLine, l.bytesPerLine, n / l.bytesPerLine + 1, 0);
    } else {
      DivisionIs(0, l.bytesPerLine, 0, 0);
    }
  }

  /** Of a buffer, any range can be read back from its dump; what lies in front of it and behind it is missing. */
  lemma BufferRoundTrip(l: Layout, buffer: seq<byte>, offset: int, end: int, vzero: int)
    requires Legal(l) && (!l.textual ==> RowWidth(l) < TWO_TO_THE_64)
    ensures var cells := Decode(l, offset, end, vzero, Dump(l, BufferData(buffer), offset, end, vzero));
            && |cells| == Covered(l, offset, end)
            && forall k :: 0 <= k < |cells| ==>
                 cells[k] == if 0 <= offset + k < |buffer| then Byte(buffer[offset + k]) else NonExistent
  {
    hide Legal, RowWidth, Dump, Decode, Covered;
    DumpRoundTrip(l, BufferData(buffer), offset, end, vzero);
  }

  /** So all of it can. */
  lemma WholeBuffer(l: Layout, buffer: seq<byte>, vzero: int)
    requires Legal(l) && (!l.textual ==> RowWidth(l) < TWO_TO_THE_64)
    ensures var cells := Decode(l, 0, |buffer| - 1, vzero, Dump(l, BufferData(buffer), 0, |buffer| - 1, vzero));
            && |buffer| <= |cells| < |buffer| + l.bytesPerLine
            && (forall k :: 0 <= k < |buffer| ==> cells[k] == Byte(buffer[k]))
            && (forall k :: |buffer| <= k < |cells| ==> cells[k] == NonExistent)
  {
    hide Legal, RowWidth, Dump, Decode, Covered;
    BufferRoundTrip(l, buffer, 0, |buffer| - 1, vzero);
    CoversTheRange(l, 0, |buffer| - 1);
    EmptyCovers(l);
  }

  lemma EmptyCovers(l: Layout)
    requires Legal(l)
    ensures Covered(l, 0, -1) == 0 && l.bytesPerLine > 0
  {
  }

  // ----- Dumps in parts -----

  /** After k rows the dump goes on as the dump from there; so row k carries the label of its own offset. */
  lemma {:induction false} DumpInParts(l: Layout, get: GetData, offset: int, end: int, vzero: int, k: nat)
    requires Legal(l) && k > 0 && offset + k * l.bytesPerLine <= end
    ensures var middle := offset + k * l.bytesPerLine;
            && Dump(l, get, offset, end, vzero)
               == Dump(l, get, offset, middle - 1, vzero) + Dump(l, get, middle, end, vzero)
            && Row(l, get, middle, vzero + offset + k * l.bytesPerLine) <= Dump(l, get, middle, end, vzero)
    decreases k
  {
    hide Row;
    var middle, next := offset + k * l.bytesPerLine, offset + l.bytesPerLine;
    Distribute(k - 1, 1, l.bytesPerLine);
    assert (k - 1) * l.bytesPerLine >= 0;
    if k > 1 {
      DumpInParts(l, get, next, end, vzero, k - 1);
      OneRowMore(l, get, offset, middle - 1, end, vzero, Dump(l, get, middle, end, vzero));
    } else {
      OneRowMore(l, get, offset, middle - 1, end, vzero, Dump(l, get, middle, end, vzero));
    }
  }

  lemma OneRowMore(l: Layout, get: GetData, offset: int, before: int, end: int, vzero: int, rest: string)
    requires Legal(l) && offset <= before <= end
    requires Dump(l, get, offset + l.bytesPerLine, end, vzero)
             == Dump(l, get, offset + l.bytesPerLine, before, vzero) + rest
    ensures Dump(l, get, offset, end, vzero) == Dump(l, get, offset, before, vzero) + rest
  {
    hide Row;
    var row, some := Row(l, get, offset, vzero + offset), Dump(l, get, offset + l.bytesPerLine, before, vzero);
    assert row + (some + rest) == row + some + rest;
  }

  // ----- Alignment -----

  /** The aligned offset is a multiple of the line length less than a line away, towards zero. */
  lemma AlignTowardsZero(voffset: int, bytesPerLine: nat)
    requires bytesPerLine > 0
    ensures var a := HexdumpAlign(voffset, bytesPerLine);
            && a % bytesPerLine == 0
            && (voffset >= 0 ==> 0 <= a && voffset - bytesPerLine < a <= voffset)
            && (voffset < 0 ==> a <= 0 && voffset <= a < voffset + bytesPerLine)
  {
    var n := if voffset >= 0 then voffset else -voffset;
    var q := n / bytesPerLine;
    MultipleIs(q, bytesPerLine);
    Remainder(n, bytesPerLine);
    var m := q * bytesPerLine;
    assert HexdumpAlign(voffset, bytesPerLine) == if voffset >= 0 then m else -m;
  }

  lemma Remainder(n: nat, b: nat)
    requires b > 0
    ensures n == n / b * b + n % b && 0 <= n % b < b && n / b * b >= 0
  {
    assert n / b >= 0;
  }

  lemma MultipleIs(q: int, b: nat)
    requires b > 0
    ensures (q * b) % b == 0 && (-(q * b)) % b == 0
  {
    var r, s := (q * b) % b, (-(q * b)) % b;
    assert b * (q - (q * b) / b) == r;
    assert b * (-q - (-(q * b)) / b) == s;
    SmallMultiple(b, q - (q * b) / b, r);
    SmallMultiple(b, -q - (-(q * b)) / b, s);
  }

  /** It lies at or before the offset, as a row start should, exactly if that is not negative, or aligned already. */
  lemma AlignIsRowStart(voffset: int, bytesPerLine: nat)
    requires bytesPerLine > 0
    ensures HexdumpAlign(voffset, bytesPerLine) <= voffset <==> voffset >= 0 || voffset % bytesPerLine == 0
  {
    var b := bytesPerLine;
    var r, s := (-voffset) % b, voffset % b;
    assert b * ((-voffset) / b + voffset / b) == -(r + s);
    if r == 0 || s == 0 {
      SmallMultiple(b, (-voffset) / b + voffset / b, -(r + s));
    }
  }

  /** The last byte in front of zero is aligned to zero, which does not lie at or before it. */
  lemma AlignOfMinusOne()
    ensures HexdumpAlign(-1, 16) == 0
  {
  }
}
