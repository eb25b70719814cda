/** Fixed-width integers and byte order, as `src/net/address.hpp` uses them. */
module Machine {

  datatype Option<+T> = None | Some(value: T)

  type byte = x: int | 0 <= x < 0x100
  type uint16 = x: int | 0 <= x < 0x1_0000
  type uint32 = x: int | 0 <= x < 0x1_0000_0000

  /** What the implicit conversion from `long long` to a 32-bit `int` keeps of a value. */
  function ToInt32(x: int): (r: int)
    ensures -0x8000_0000 <= r < 0x8000_0000
    ensures -0x8000_0000 <= x < 0x8000_0000 ==> r == x
    ensures 0x8000_0000 <= x < 0x1_0000_0000 ==> r == x - 0x1_0000_0000
  {
    (x + 0x8000_0000) % 0x1_0000_0000 - 0x8000_0000
  }

  datatype ByteOrder = BigEndian | LittleEndian

  /** The octets of a 32-bit number, most significant first. */
  function Octets(x: uint32): (b: seq<byte>)
    ensures |b| == 4
  {
    [x / 0x100_0000, x / 0x1_0000 % 0x100, x / 0x100 % 0x100, x % 0x100]
  }

  function Word(b0: int, b1: int, b2: int, b3: int): int {
    b0 * 0x100_0000 + b1 * 0x1_0000 + b2 * 0x100 + b3
  }

  function OfOctets(b: seq<byte>): uint32
    requires |b| == 4
  {
    Word(b[0], b[1], b[2], b[3])
  }

  lemma OctetsRoundTrip(b: seq<byte>)
    requires |b| == 4
    ensures Octets(OfOctets(b)) == b
  {
    WordDigits(b[0], b[1], b[2], b[3]);
  }

  lemma WordDigits(b0: int, b1: int, b2: int, b3: int)
    requires 0 <= b0 < 256 && 0 <= b1 < 256 && 0 <= b2 < 256 && 0 <= b3 < 256
    ensures var x := Word(b0, b1, b2, b3);
            x / 0x100_0000 == b0 && x / 0x1_0000 % 0x100 == b1 && x / 0x100 % 0x100 == b2 && x % 0x100 == b3
  {
    var x := Word(b0, b1, b2, b3);
    assert x / 0x1_0000 == b0 * 0x100 + b1;
    assert x / 0x100 == (b0 * 0x100 + b1) * 0x100 + b2;
  }

  lemma OfOctetsRoundTrip(x: uint32)
    ensures OfOctets(Octets(x)) == x
  {
    assert x / 0x1_0000 / 0x100 == x / 0x100_0000;
    assert x / 0x100 / 0x100 == x / 0x1_0000;
  }

  /** `__builtin_bswap32`. */
  function Swap32(x: uint32): uint32 {
    var b := Octets(x);
    OfOctets([b[3], b[2], b[1], b[0]])
  }

  function HostToNet32(order: ByteOrder, x: uint32): uint32 {
    if order == BigEndian then x else Swap32(x)
  }

  function NetToHost32(order: ByteOrder, x: uint32): uint32 {
    HostToNet32(order, x)
  }

  /** The four bytes that a machine of the given order holds in memory for x. */
  function Stored32(order: ByteOrder, x: uint32): seq<byte> {
    var b := Octets(x);
    if order == BigEndian then b else [b[3], b[2], b[1], b[0]]
  }

  /** On either machine the converted number lies in memory most significant octet first. */
  lemma NetworkOrder(order: ByteOrder, x: uint32)
    ensures Stored32(order, HostToNet32(order, x)) == Octets(x)
  {
    var b := Octets(x);
    OctetsRoundTrip([b[3], b[2], b[1], b[0]]);
  }

  lemma NetHostCancel(order: ByteOrder, x: uint32)
    ensures NetToHost32(order, HostToNet32(order, x)) == x
  {
    var b := Octets(x);
    OctetsRoundTrip([b[3], b[2], b[1], b[0]]);
    OfOctetsRoundTrip(x);
    assert [b[0], b[1], b[2], b[3]] == b;
  }
}
