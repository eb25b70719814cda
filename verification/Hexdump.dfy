/** `hexdump_to_stream`: rows of hexadecimal fields in fixed columns. */
module Hexdump {
  import opened Machine
  import opened Numbers

  /** What is known about an offset; a read function gives one for every offset. */
  datatype Cell = Byte(value: byte) | Unknown | NonExistent

  type GetData = int -> Cell

  datatype Layout = Layout(
    bytesPerLine: nat,
    bytesPerGroup: nat,
    spacePerByte: nat,
    spacePerGroup: nat,
    textual: bool,
    uppercase: bool)

  /** The layouts with which the code neither loops for ever nor divides by zero. */
  predicate Legal(l: Layout) {
    && l.bytesPerLine > 0
    && (l.bytesPerGroup > 0 || (l.textual && (l.spacePerGroup == 0 || l.bytesPerLine == 1)))
  }

  const TWO_TO_THE_64: nat := 0x1_0000_0000_0000_0000

  // ----- Characters -----

  function Spaces(n: nat): (s: string)
    ensures |s| == n
  {
    seq(n, _ => ' ')
  }

  function Cased(digits: string, uppercase: bool): (s: string)
    ensures |s| == |digits|
  {
    if uppercase then Upper(digits) else digits
  }

  /** The address column: the offset as a `size_t`, with at least eight digits. */
  function Label(offset: int, uppercase: bool): (s: string)
    ensures |s| >= 8
  {
    var digits := Cased(PrintIn(16, offset % TWO_TO_THE_64), uppercase);
    seq(if |digits| < 8 then 8 - |digits| else 0, _ => '0') + digits
  }

  function Field(c: Cell, uppercase: bool): (s: string)
    ensures |s| == 2
  {
    match c
    case Unknown => "??"
    case NonExistent => "  "
    case Byte(b) => Cased([DigitFor(b / 16), DigitFor(b % 16)], uppercase)
  }

  function TextCharacter(c: Cell): char {
    match c
    case Unknown => '?'
    case NonExistent => ' '
    case Byte(b) => if 32 <= b < 127 then b as char else '.'
  }

  // ----- A row -----

  /** The spaces in front of field idx. */
  function Gap(l: Layout, idx: nat): string
    requires Legal(l) && idx < l.bytesPerLine
  {
    (if l.spacePerGroup > 0 && idx > 0 && idx % l.bytesPerGroup == 0 then Spaces(l.spacePerGroup) else "")
    + (if l.spacePerByte > 0 && idx > 0 then Spaces(l.spacePerByte) else "")
  }

  /** The first n fields of the row at an offset. */
  function HexLine(l: Layout, get: GetData, offset: int, n: nat): string
    requires Legal(l) && n <= l.bytesPerLine
  {
    if n == 0 then ""
    else HexLine(l, get, offset, n - 1) + (Gap(l, n - 1) + Field(get(offset + n - 1), l.uppercase))
  }

  /** One past the last of the first n fields that shows something. */
  function LastShown(get: GetData, offset: int, n: nat): (last: nat)
    ensures last <= n
    ensures forall x :: offset + last <= x < offset + n ==> get(x) == NonExistent
    ensures last > 0 ==> get(offset + last - 1) != NonExistent
  {
    if n == 0 then 0
    else if get(offset + n - 1) != NonExistent then n
    else LastShown(get, offset, n - 1)
  }

  function TextLine(get: GetData, offset: int, n: nat): (s: string)
    ensures |s| == n
  {
    seq(n, k requires 0 <= k < n => TextCharacter(get(offset + k)))
  }

  function Unsigned(x: int): nat {
    x % TWO_TO_THE_64
  }

  /** The length to which a row without a text column is cut, in `size_t` arithmetic. */
  function Cut(l: Layout, last: nat): nat
    requires l.bytesPerGroup > 0
  {
    Unsigned(last * 2 + Unsigned(last - 1) * l.spacePerByte + Unsigned(last - 1) / l.bytesPerGroup * l.spacePerGroup)
  }

  function Prefix(s: string, n: nat): string {
    if n <= |s| then s[..n] else s
  }

  function Body(l: Layout, get: GetData, offset: int): string
    requires Legal(l)
  {
    var hex, last := HexLine(l, get, offset, l.bytesPerLine), LastShown(get, offset, l.bytesPerLine);
    if l.textual then hex + " : " + TextLine(get, offset, l.bytesPerLine)[..last]
    else Prefix(hex, Cut(l, last))
  }

  function Row(l: Layout, get: GetData, offset: int, voffset: int): string
    requires Legal(l)
  {
    Label(voffset, l.uppercase) + " : " + Body(l, get, offset) + "\n"
  }

  /** The rows from an offset on, up to the one that covers `end`. */
  function Dump(l: Layout, get: GetData, offset: int, end: int, vzero: int): string
    requires Legal(l)
    decreases end - offset
  {
    if offset > end then ""
    else Row(l, get, offset, vzero + offset) + Dump(l, get, offset + l.bytesPerLine, end, vzero)
  }

  // ----- The printer -----

  class OStream {
    var content: string

    constructor ()
      ensures content == ""
    {
      content := "";
    }

    method Put(s: string)
      modifies this
      ensures content == old(content) + s
    {
      content := content + s;
    }
  }

  lemma OneMoreField(l: Layout, get: GetData, offset: int, n: nat)
    requires Legal(l) && n < l.bytesPerLine
    ensures HexLine(l, get, offset, n + 1)
            == HexLine(l, get, offset, n) + (Gap(l, n) + Field(get(offset + n), l.uppercase))
    ensures LastShown(get, offset, n + 1)
            == if get(offset + n) != NonExistent then n + 1 else LastShown(get, offset, n)
    ensures TextLine(get, offset, n + 1) == TextLine(get, offset, n) + [TextCharacter(get(offset + n))]
  {
  }

  method HexdumpToStream(os: OStream, l: Layout, start: int, end: int, vzero: int, get: GetData)
    requires Legal(l)
    modifies os
    ensures os.content == old(os.content) + Dump(l, get, start, end, vzero)
  {
    hide Row, HexLine, LastShown, TextLine, Label, Cut, Field;
    var offsetLine := vzero + start;
    var offset := start;
    while offset <= end
      invariant offsetLine == vzero + offset
      invariant os.content + Dump(l, get, offset, end, vzero) == old(os.content) + Dump(l, get, start, end, vzero)
      decreases end - offset
    {
      ghost var before, rest := os.content, Dump(l, get, offset + l.bytesPerLine, end, vzero);
      PutRow(os, l, offset, offsetLine, get);
      assert before + (Row(l, get, offset, offsetLine) + rest) == before + Row(l, get, offset, offsetLine) + rest;
      offset := offset + l.bytesPerLine;
      offsetLine := offsetLine + l.bytesPerLine;
    }
    assert Dump(l, get, offset, end, vzero) == "";
    assert os.content + "" == os.content;
  }

  /** One turn of the outer loop. */
  method PutRow(os: OStream, l: Layout, offset: int, offsetLine: int, get: GetData)
    requires Legal(l)
    modifies os
    ensures os.content == old(os.content) + Row(l, get, offset, offsetLine)
  {
    hide HexLine, LastShown, TextLine, Label, Cut, Field, TextCharacter;
    os.Put(Label(offsetLine, l.uppercase) + " : ");
    var textData, textLast, hexData := Spaces(l.bytesPerLine), 0, "";
    var idx := 0;
    NoFields(l, get, offset);
    while idx < l.bytesPerLine
      invariant 0 <= idx <= l.bytesPerLine && os.content == old(os.content) + (Label(offsetLine, l.uppercase) + " : ")
      invariant hexData == HexLine(l, get, offset, idx) && textLast == LastShown(get, offset, idx)
      invariant textData == TextLine(get, offset, idx) + Spaces(l.bytesPerLine - idx)
    {
      OneMoreField(l, get, offset, idx);
      var data := get(offset + idx);
      var gap := "";
      if l.spacePerGroup > 0 && idx > 0 && idx % l.bytesPerGroup == 0 {
        gap := gap + Spaces(l.spacePerGroup);
      }
      if l.spacePerByte > 0 && idx > 0 {
        gap := gap + Spaces(l.spacePerByte);
      }
      GapIs(l, idx, gap);
      hexData := hexData + (gap + Field(data, l.uppercase));
      if data != NonExistent {
        textLast := idx + 1;
      }
      SetCharacter(TextLine(get, offset, idx), l.bytesPerLine - idx, TextCharacter(data));
      textData := textData[idx := TextCharacter(data)];
      idx := idx + 1;
    }
    assert textData == TextLine(get, offset, idx);
    RowInParts(l, get, offset, offsetLine, old(os.content));
    hide Prefix, Row, Spaces, Gap;
    if l.textual {
      os.Put(hexData);
      os.Put(" : ");
      os.Put(textData[..textLast]);
      os.Put("\n");
    } else {
      os.Put(Prefix(hexData, Cut(l, textLast)));
      os.Put("\n");
    }
  }

  lemma NoFields(l: Layout, get: GetData, offset: int)
    requires Legal(l)
    ensures HexLine(l, get, offset, 0) == "" && LastShown(get, offset, 0) == 0
    ensures TextLine(get, offset, 0) + Spaces(l.bytesPerLine) == Spaces(l.bytesPerLine)
  {
  }

  lemma GapIs(l: Layout, idx: nat, gap: string)
    requires Legal(l) && idx < l.bytesPerLine
    requires gap == ""
             + (if l.spacePerGroup > 0 && idx > 0 && idx % l.bytesPerGroup == 0 then Spaces(l.spacePerGroup) else "")
             + (if l.spacePerByte > 0 && idx > 0 then Spaces(l.spacePerByte) else "")
    ensures gap == Gap(l, idx)
  {
  }

  lemma SetCharacter(text: string, n: nat, c: char)
    requires n > 0
    ensures (text + Spaces(n))[|text| := c] == text + [c] + Spaces(n - 1)
  {
  }

  lemma RowInParts(l: Layout, get: GetData, offset: int, offsetLine: int, before: string)
    requires Legal(l)
    ensures var hex, last := HexLine(l, get, offset, l.bytesPerLine), LastShown(get, offset, l.bytesPerLine);
            var head, text := Label(offsetLine, l.uppercase) + " : ", TextLine(get, offset, l.bytesPerLine);
            before + Row(l, get, offset, offsetLine)
            == if l.textual then before + head + hex + " : " + text[..last] + "\n"
               else before + head + Prefix(hex, Cut(l, last)) + "\n"
  {
    hide HexLine, LastShown, TextLine, Label, Cut, Prefix;
    var hex, last := HexLine(l, get, offset, l.bytesPerLine), LastShown(get, offset, l.bytesPerLine);
    var head, text := Label(offsetLine, l.uppercase) + " : ", TextLine(get, offset, l.bytesPerLine);
    var body := Body(l, get, offset);
    assert before + (head + body + "\n") == before + head + body + "\n";
    if l.textual {
      assert before + head + (hex + " : " + text[..last]) + "\n" == before + head + hex + " : " + text[..last] + "\n";
    }
  }

  method HexdumpToString(l: Layout, start: int, end: int, vzero: int, get: GetData) returns (s: string)
    requires Legal(l)
    ensures s == Dump(l, get, start, end, vzero)
  {
    var ss := new OStream();
    HexdumpToStream(ss, l, start, end, vzero, get);
    assert "" + Dump(l, get, start, end, vzero) == Dump(l, get, start, end, vzero);
    s := ss.content;
  }

  /** `make_getdata_t`. */
  function BufferData(buffer: seq<byte>): GetData {
    (offset: int) =>
      if offset < 0 then NonExistent else if offset >= |buffer| then NonExistent else Byte(buffer[offset])
  }

  /** The remainder of C, which takes the sign of the dividend. */
  function TruncatedRemainder(a: int, b: nat): int
    requires b > 0
  {
    if a >= 0 then a % b else -((-a) % b)
  }

  function HexdumpAlign(voffset: int, bytesPerLine: nat): int
    requires bytesPerLine > 0
  {
    voffset - TruncatedRemainder(voffset, bytesPerLine)
  }
}
