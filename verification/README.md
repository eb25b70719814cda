# Verification of the network and dump algorithms of ReadMailReallyFast

A Dafny model of the four algorithms of the program that carry real logic, and proofs about them:

- the IPv4 and IPv6 literal parsers of `src/net/address.hpp`,
- the line buffer of `src/net/connection_line_buffer.cpp`,
- the write queue of `src/net/ioqueue.cpp` and the client of `src/net/tcp_client.cpp` that drives it,
- the hex dump of `src/utils/hexdump.cpp`.

`dafny verify dfyconfig.toml` checks everything.

## How the model is made

Loops, arrays and objects of the program are loops, arrays and classes here, and each such method is proved equal
to a specification function. The laws are lemmas about those functions; where a law says which numbers, bytes or
characters come out, it does so by tables, places and the data that goes in, not by the functions themselves.

| Files | Content |
|---|---|
| `Machine`, `Text` | 32-bit values and byte order; strings, separators, the search loops |
| `Numbers`, `Numerals` | digits and positional values; numerals by a table of digits and the weights of places |
| `AddressComponent`, `Inet4`, `Inet6` | the parsers |
| `Inet4Laws`, `Inet6Grammar`, `Inet6Laws`, `Inet6Agreement`, `Inet6Texts` | the parsers against RFC 3986 and RFC 4291 |
| `Inet4Values`, `Inet6Values` | what each accepted text is read as, by its numerals and their places |
| `Inet6Exceptions`, `Inet6Language`, `Inet6Examples` | where the IPv6 parser departs from the rule: conditions on the text, the accepted language, and inputs |
| `LineBuffer`, `LineBufferLaws`, `LiteralLoop` | lines out of chunks |
| `IoQueue`, `TcpClient`, `TcpClientLaws`, `TcpClientEvents` | the write queue and the client, over runs and event by event |
| `EndToEnd` | two clients, each with a line buffer, and two ordered byte streams between them |
| `Hexdump`, `HexdumpLaws`, `HexdumpText` | the printer, its decoder, and its text character by character |

A C array `char str[N]` is modelled as its content followed by a NUL. In the network modules a `char` stands for a
byte of a `std::string`. System calls are parameters: what `write` and `recv` return, and what the receive callback
writes, is chosen freely by the environment.

## Where the code departs from its intent

The model follows the code, with the one exception of the line buffer. For each departure there is a concrete input
and the exact condition under which it does not matter.

- `src/net/address.hpp:229` tests `c1` twice and never `c4`. A dotted-decimal address is accepted whatever follows its
  third dot, and becomes 255.255.255.255 if that is no octet (`CanonicalVersusRfc`; input `1.2.3.`,
  `TrailingDotIsAccepted`). The permissive parser refuses that text (`CanonicalVersusPermissive`,
  `TrailingDotIsRefused`). An IPv6 address with such an end is accepted too (`ConformsByText`; input `::1.2.3.`,
  `FalseOctetIsAccepted`).
- `src/net/address.hpp:352` looks for a trailing colon at the NUL. A lone colon behind the last group is accepted
  (`StrayIsALoneColon`; input `1::2:`, `LoneColonIsAccepted`).
- `src/net/address.hpp:325-332`, called with a shift of 0 from line 376, clears what it should leave alone. An address
  whose `::` stands for one group in front of an embedded IPv4 address loses everything behind the `::`
  (`LosesEndByText`; input `::1:2:3:4:5:1.2.3.4`, `EndIsLost`).
- `src/net/address.hpp:151` narrows to `int`: a single-number IPv4 address of 2^31 or more is refused
  (`SingleNumberNeedsThirtyOneBits`; input `2147483648`, `LargeNumberIsRefused`).
- `src/net/connection_line_buffer.cpp:65` resumes the search at the terminator. With any search the loop ends as it
  should exactly for chunks in which the search finds nothing (`EndsAsItShouldIfNothingIsFound`); with the default one it
  never ends otherwise (`LoopEndsWithoutLineEnds`; input: a single line feed, `LineFeedLoops`). The class
  `ConnectionLineBuffer` therefore models the loop with the search resumed behind the terminator; where nothing is found
  the two agree.
- `src/utils/hexdump.cpp:86` takes the maximum of 0 and an unsigned number: the length of a row that shows nothing wraps
  around (`BlankRowIsEmpty`; input: three missing bytes, `BlankRowIsKept`). No information is lost by it.
- `src/utils/hexdump.cpp:197` rounds a negative offset towards zero, past the offset (`AlignIsRowStart`; input: offset -1
  with 16 bytes in a line, `AlignOfMinusOne`).

`AcceptedLanguage` and `ParserVersusRule` put the IPv6 departures together, without mention of the parser's own verdict:
`inet6_aton` accepts the IPv6addresses, those with a colon too much (`StrayText`), and those with a false fourth octet
(`FalseText`); and it does what the rule says on all texts but these two kinds and the IPv6addresses that lose their end
(`LosesEndText`).

## Model

| member | source | states |
|---|---|---|
| `Text.FindChr` | src/net/address.hpp:74-83 | finds the end of the token that starts at `from`, -1 if no such character follows |
| `Text.RFindChr` | src/net/address.hpp:62-71 | finds the last occurrence at or before `from`; a negative start finds nothing |
| `Text.JoinSplit` | src/net/address.hpp:215-218 | splitting at a separator gives separator-free parts that join to the text |
| `Text.SplitJoin` | src/net/address.hpp:215-218 | separator-free parts, joined and split, come back |
| `Machine.NetHostCancel` | src/net/address.hpp:15-35 | net-to-host undoes host-to-net on either byte order |
| `Machine.NetworkOrder` | src/net/address.hpp:15-29 | a converted number lies in memory most significant octet first, on either machine |
| `Inet4Values.OctetsAndMemory` | src/net/address.hpp:15-29 | the octets of a number are its digits in base 256, and a machine reads the stored ones back in its own order |
| `AddressComponent.ParseAddressComponent` | src/net/address.hpp:121-148 | returns the positional value of the slice up to the separator if it is nonempty, all digits, short enough and at most the maximum, else -1; the accumulator stays below 2^36 |
| `Numbers.PrefixIsSmaller` | src/net/address.hpp:142-144 | a prefix never has a larger value than the whole, so the early overflow cut never changes the answer |
| `Numerals.DigitTable` | src/net/address.hpp:103-119 | each digit has the value of its place in `0123456789abcdef`, or `0123456789ABCDEF`, and is printed as the former |
| `Numerals.DigitsOfBase` | src/net/address.hpp:86-119 | the digits of a base are the first characters of these tables, each with the value of its place, and no others |
| `Numerals.ComponentIsNumeral` | src/net/address.hpp:121-148 | a component is read as v exactly if it is a numeral of value v, by digits and weights of places, within the limits of value and length; too large is refused |
| `Inet4.ParseInetComponentCanonical` | src/net/address.hpp:194-201 | reads the octet that starts at an index; leading zeros and other bases are refused |
| `Inet4.ParseInetComponent` | src/net/address.hpp:178-187 | reads the component that starts at an index, in the base that its prefix selects, narrowed to `int` |
| `Inet4.PermissivePartAt` | src/net/address.hpp:180-186 | looking ahead in the array selects the base that the prefix of the component selects |
| `Inet4.InetAddrCanonicalAt` | src/net/address.hpp:213-235 | succeeds exactly if the text from the index on has four parts of which the first three are octets; a refused text leaves the address alone |
| `Inet4.InetAddrImpl` | src/net/address.hpp:251-294 | one to four components, read in the base of their prefix and shifted into place; a refused text leaves the address alone |
| `Inet4.OrTogetherIsPack` | src/net/address.hpp:233 | what both parsers compute, the bitwise or of the shifted components cut to 32 bits, is positional notation in base 256, and all ones if the last component is -1 |
| `Inet4Laws.OctetIffDecOctet` | src/net/address.hpp:194-201 | the component checks accept exactly the dec-octet rule of section 3.2.2 of RFC 3986 |
| `Inet4Values.DecOctetIsNumeral` | src/net/address.hpp:194-201 | an octet is read as v exactly if it is a decimal numeral of value v, up to 255, without a superfluous zero |
| `Inet4.ParsingAtIsParsingTheSuffix` | src/net/address.hpp:213-241 | parsing at an index is parsing the suffix |
| `Inet4Laws.PrintThenParse` | src/net/address.hpp:238-241 | every 32-bit address, printed in dotted decimal, is parsed back |
| `Inet4Laws.ParseThenPrint` | src/net/address.hpp:238-241 | every IPv4address is the printed form of what is parsed from it |
| `Inet4Laws.CanonicalVersusRfc` | src/net/address.hpp:220-234 | the parser agrees with the IPv4address rule exactly if a fourth part behind three octets is an octet; otherwise it yields 255.255.255.255 |
| `Inet4Values.CanonicalValue` | src/net/address.hpp:220-234 | four octets are read as the sum of their values in their places; three octets and something else as 255.255.255.255 |
| `Inet4Laws.TrailingDotIsAccepted` | src/net/address.hpp:229 | `1.2.3.` is no IPv4address and is accepted |
| `Inet4Laws.TrailingDotIsRefused` | src/net/address.hpp:286 | the permissive parser refuses `1.2.3.` |
| `Inet4Laws.CanonicalVersusPermissive` | src/net/address.hpp:178-294 | what the canonical parser accepts, the permissive one reads the same exactly if the fourth part is an octet or both reach 255.255.255.255 |
| `Inet4Laws.SingleNumberNeedsThirtyOneBits` | src/net/address.hpp:150-154 | a single number is read as meant exactly below 2^31, and refused above |
| `Inet4Values.PermissivePartIs` | src/net/address.hpp:178-187 | a part is read as v exactly if it is a numeral of value v within the limit: hexadecimal behind `0x` or `0X`, octal behind 0 and another digit than 0, else decimal |
| `Inet4Values.PermissiveLanguage` | src/net/address.hpp:251-294 | a text is read as x exactly if it has one to four parts, each a numeral up to 255, or below 2^31 if it stands alone, and x is their sum in their places |
| `Inet4Laws.LargeNumberIsRefused` | src/net/address.hpp:150-154 | `2147483648` is refused, though meant as a 32-bit value |
| `Inet4Laws.EveryBaseIsRead` | src/net/address.hpp:177-187 | every number is read back in every base: hexadecimal behind `0x` or `0X`, octal behind one `0`, decimal otherwise, even behind two zeros |
| `Inet4Laws.ShortForms` | src/net/address.hpp:245-286 | a.b is read as a.0.0.b, and a.b.c as a.b.0.c, refused or not |
| `Inet6.RShiftArray` | src/net/address.hpp:318-333 | the contents after the in-place shift, for every start and shift |
| `Inet6.ShiftMoves` | src/net/address.hpp:318-333 | which cells move, which become zero and which stay, for every array, start and shift |
| `Inet6.ShiftInsertsZeros` | src/net/address.hpp:325-332 | into an array that ends in enough zeros the shift inserts zeros, exactly if it is positive or everything behind is zero anyway |
| `Inet6.Inet6ArrayToSaddr` | src/net/address.hpp:308-316 | fills the sixteen bytes from the eight hexlets |
| `Inet6.BytesAreBigEndian` | src/net/address.hpp:310-315 | each pair of bytes is its hexlet, more significant byte first |
| `Inet6.ParseInet6Hexlet` | src/net/address.hpp:207-210 | reads one to four hexadecimal digits up to a colon |
| `Inet6.EarlyChecks` | src/net/address.hpp:352-354 | the checks before the loop refuse nothing that the loop would accept |
| `Inet6.ShiftAtEnd` | src/net/address.hpp:359-365 | when the text ends early, the last cells are zero, and so the shift of the cells behind the `::` yields the address |
| `Inet6.PlaceDotted` | src/net/address.hpp:369-378 | an embedded address fills two slots, and the shift behind it, over zero cells, yields the address, or clears its end |
| `Inet6.SkipGroup` | src/net/address.hpp:408-416 | the cursor goes on behind the colon of a group, but in front of a `::` |
| `Inet6.Inet6Aton` | src/net/address.hpp:343-427 | succeeds exactly if the text has a parse tree, and then stores the bytes of what the tree denotes; a refused text leaves the address alone |
| `Inet6Grammar.GroupIsNotDotted` | src/net/address.hpp:369 | a group is never taken for the start of an embedded address |
| `Inet6Grammar.Sound` | src/net/address.hpp:356-422 | every tree that is read is valid and prints as the text that was read, from any position in the loop |
| `Inet6Grammar.Complete` | src/net/address.hpp:356-422 | whatever prints a valid tree is read as that tree, from any position in the loop |
| `Inet6Grammar.ParserInvertsPrinting` | src/net/address.hpp:343-427 | the accepted texts are exactly the printed valid trees, and each is read as its tree |
| `Inet6Laws.HexletIffH16` | src/net/address.hpp:207-210 | a group is accepted exactly if it is one to four hexadecimal digits |
| `Inet6Laws.NineAlternatives` | src/net/address.hpp:337-340 | the addresses of the model are the nine alternatives of the IPv6address rule |
| `Inet6Laws.AcceptsTheRule` | src/net/address.hpp:343-427 | every IPv6address of section 3.2.2 of RFC 3986 is accepted and read as its groups |
| `Inet6Laws.ConformingTrees` | src/net/address.hpp:343-427 | a text is an IPv6address exactly if it is accepted and its tree has neither a stray colon nor a false fourth octet |
| `Inet6Agreement.ComputedVersusIntended` | src/net/address.hpp:359-381 | the computed address is the intended one exactly unless a `::` of one group stands before an embedded address and something nonzero follows it |
| `Inet6Agreement.TreeVersusRule` | src/net/address.hpp:343-427 | for every text: parser and rule agree exactly if its tree shows none of the three departures |
| `Inet6Agreement.DenotesOne` | src/net/address.hpp:335-341 | an IPv6address denotes one address only |
| `Inet6Agreement.HexletsAreRead` | src/net/address.hpp:356-418 | any groups with a `::` anywhere, or eight groups, are read as groups, zeros and groups |
| `Inet6Texts.CaseDoesNotMatter` | src/net/address.hpp:100-119 | upper and lower case hexlets have the same value |
| `Inet6Texts.LeadingZeroDoesNotMatter` | src/net/address.hpp:122-148 | leading zeros, up to four digits, do not change a hexlet |
| `Inet6Texts.PrintedHexlet` | src/net/address.hpp:207-210 | the shortest form of a 16-bit value is a hexlet of that value |
| `Inet6Texts.PrintThenParse` | src/net/address.hpp:343-427 | every address, printed in eight groups, is parsed back |
| `Inet6Texts.NeverBoth` | src/net/address.hpp:484-496 | no text is accepted both as an IPv4 and as an IPv6 literal |
| `Inet6Values.HexletIsNumeral` | src/net/address.hpp:207-210 | a group is read as v exactly if it is a hexadecimal numeral of value v of one to four digits |
| `Inet6Values.MeaningIs` | src/net/address.hpp:359-418 | the hexlets that an IPv6address denotes are the values of its groups in their places, zeros for the `::`, and the two halves of the IPv4address, and no others |
| `Inet6Exceptions.StrayIsALoneColon` | src/net/address.hpp:351-354 | short of an embedded address, the accepted texts that the rule refuses are the ones that end in a lone colon |
| `Inet6Exceptions.EmbeddedAddressOfText` | src/net/address.hpp:369 | an accepted text has an embedded address exactly if it has a dot, and it is what stands behind the last colon before the first dot |
| `Inet6Exceptions.ConformsByText` | src/net/address.hpp:351-369 | an accepted text conforms to the rule exactly if, without a dot, it does not end in a lone colon and, with one, its embedded address is an IPv4address |
| `Inet6Exceptions.LosesEndByText` | src/net/address.hpp:375-377 | a conforming text loses its end exactly if it has a dot, five groups and a `::` in front of the embedded address, and something else than zeros and separators behind the `::` |
| `Inet6Exceptions.AcceptedVersusRule` | src/net/address.hpp:343-427 | a text is an IPv6address exactly if it is accepted and meets the condition of `ConformsByText` |
| `Inet6Exceptions.AcceptedAgreement` | src/net/address.hpp:343-427 | for every text: parser and rule agree on acceptance and on all eight groups exactly if the text is refused, or meets the condition of `ConformsByText` and not that of `LosesEndByText` |
| `Inet6Exceptions.EmbeddingEqualsHexlets` | src/net/address.hpp:369-381 | an embedded IPv4 address gives the same address as its two hexlets exactly if the text does not meet the condition of `LosesEndByText` |
| `Inet6Language.AcceptedLanguage` | src/net/address.hpp:343-427 | the accepted texts are the IPv6addresses, the IPv6addresses without a dot and with one more colon, and the texts with a false fourth octet where an IPv4address would make an IPv6address |
| `Inet6Language.ParserVersusRule` | src/net/address.hpp:343-427 | for every text: parser and rule agree on acceptance and on all eight groups exactly if the text is of neither of the last two kinds and no IPv6address that loses its end |
| `Inet6Values.StrayValue` | src/net/address.hpp:352 | a text with a colon too much is read as without it |
| `Inet6Values.FalseValue` | src/net/address.hpp:229-234 | a text with a false fourth octet is read as with 255.255.255.255 in its place |
| `Inet6Values.LostEndValue` | src/net/address.hpp:325-332 | five groups around a `::` and an IPv4address are read as the groups in front of the `::`, and zeros |
| `Inet6Examples.LoneColonIsAccepted` | src/net/address.hpp:352 | `1::2:` is no IPv6address and is accepted |
| `Inet6Examples.FalseOctetIsAccepted` | src/net/address.hpp:229 | `::1.2.3.` is no IPv6address and is accepted |
| `Inet6Examples.EndIsLost` | src/net/address.hpp:375-377 | `::1:2:3:4:5:1.2.3.4` is read as the unspecified address, and denotes another one |
| `LineBuffer.DefaultEolSearch` | src/net/connection_line_buffer.cpp:12-31 | finds the first line feed, or carriage return that no line feed follows, at or after the start |
| `LineBufferLaws.FirstLineEnd` | src/net/connection_line_buffer.cpp:12-31 | the search finds n exactly if there is a line feed, or a carriage return that no line feed follows, at n, and no line end before it but the carriage return of its CRLF |
| `LineBuffer.ConnectionLineBuffer.constructor` | src/net/connection_line_buffer.cpp:33-44 | starts with an empty buffer |
| `LineBuffer.ConnectionLineBuffer.ConnDataInCb` | src/net/connection_line_buffer.cpp:46-72 | for any legal search: the calls and the buffer after a chunk, and the buffer is within its limit |
| `LineBufferLaws.NothingIsLost` | src/net/connection_line_buffer.cpp:46-72 | for any legal search and any chunks: the input is the lines with their terminators, the overflows and the buffer, in order |
| `LineBufferLaws.CallsSay` | src/net/connection_line_buffer.cpp:56-71 | each piece is reported with its text, and as complete exactly if a terminator ended it |
| `LineBufferLaws.FeedIsOnePass` | src/net/connection_line_buffer.cpp:12-72 | the searches over a chunk find the lines of one pass, character by character |
| `LineBufferLaws.LinesAreSplit` | src/net/connection_line_buffer.cpp:12-31 | without carriage returns, lines and remainder are the parts between the line feeds |
| `LineBufferLaws.ShapeOfFeedAll` | src/net/connection_line_buffer.cpp:46-72 | lines hold no line feed and a carriage return only in last place, before a terminating line feed; the buffer holds neither; what overflows is overlong |
| `LineBufferLaws.ChunkingIsInvisible` | src/net/connection_line_buffer.cpp:46-72 | feeding two chunks equals feeding both at once exactly if the boundary cuts no CRLF and, unless nothing follows, the remainder is within the limit |
| `LineBufferLaws.CutCrlf` | src/net/connection_line_buffer.cpp:48-52 | a CRLF that is cut costs its line the carriage return and gives one more, empty line; nothing else changes |
| `LineBufferLaws.MergedIsOnePass` | src/net/connection_line_buffer.cpp:48-52 | lines with their parted CRLFs put back together are the lines of one pass over what they were made of |
| `LineBufferLaws.AnyChunking` | src/net/connection_line_buffer.cpp:46-72 | all chunkings of a stream agree, up to parted CRLFs, unless a remainder overflows |
| `LineBufferLaws.ChunksAreOneStream` | src/net/connection_line_buffer.cpp:46-72 | without carriage returns and overlong lines, any chunks give the lines of the whole stream |
| `LiteralLoop.LiteralKeepsAll` | src/net/connection_line_buffer.cpp:56-71 | for any legal search, after any number of iterations: what the loop as it stands has reported and holds is the buffer and the chunk up to the cursor, terminators included |
| `LiteralLoop.EndsAsItShouldIfNothingIsFound` | src/net/connection_line_buffer.cpp:56-71 | for any legal search: the loop as it stands ends with the lines and the remainder of the loop as it should be exactly for chunks in which the search finds nothing |
| `LiteralLoop.FoundForEver` | src/net/connection_line_buffer.cpp:56-66 | with the default search, once a line end is found, each further iteration reports one more empty line |
| `LiteralLoop.LoopEndsWithoutLineEnds` | src/net/connection_line_buffer.cpp:12-66 | with the default search the loop as it stands ends exactly for chunks without a line end, and then does what it should |
| `LiteralLoop.LineFeedLoops` | src/net/connection_line_buffer.cpp:56-66 | the chunk of a single line feed keeps the loop running for ever |
| `IoQueue.IoRecord.Advance` | src/net/ioqueue.cpp:31-33 | drops the given number of bytes, at most all |
| `IoQueue.IoRecord.Size` | src/net/ioqueue.cpp:20-22 | counts the remaining bytes |
| `IoQueue.IoQueue.PushBack` | src/net/ioqueue.cpp:47-56 | appends a copy of a record, unless it is empty |
| `IoQueue.IoQueue.PushFront` | src/net/ioqueue.cpp:58-67 | prepends a copy of a record, unless it is empty |
| `IoQueue.IoQueue.PopFront` | src/net/ioqueue.cpp:69-77 | takes out a copy of the first record, an empty one if there is none |
| `TcpClient.TcpClient.constructor` | src/net/tcp_client.cpp:24-33 | starts with an empty queue and read interest only |
| `TcpClient.TcpClient.WriteData` | src/net/tcp_client.cpp:142-146 | queues the data and arms write interest |
| `TcpClient.TcpClient.React` | src/net/tcp_client.cpp:172-174 | the writes of the receive callback, in order |
| `TcpClient.TcpClient.PushWriteQueue` | src/net/tcp_client.cpp:189-205 | the state after a write of any result |
| `TcpClient.TcpClient.CbEv` | src/net/tcp_client.cpp:153-187 | the state after an event of any flags and results, the callback's own writes included |
| `TcpClientLaws.PushedMoves` | src/net/tcp_client.cpp:195-204 | a write moves bytes from the queue to what is sent, in order; a failed one drops the head record; no empty record is queued |
| `TcpClientLaws.StepKeeps` | src/net/tcp_client.cpp:142-205 | every step keeps the invariant |
| `TcpClientLaws.EveryRunKeeps` | src/net/tcp_client.cpp:142-205 | in every reachable state: submitted equals sent and queued, short of a failure; sent is a prefix of submitted; no queued record is empty; queued data implies write interest |
| `TcpClientLaws.RunRecords` | src/net/tcp_client.cpp:142-187 | while the client runs, submitted is all data of the events in order, and so are the chunks that the callback has seen |
| `TcpClientLaws.InterestIsExact` | src/net/tcp_client.cpp:142-187 | at every point of every run of a running client, write interest is armed exactly if data is queued or something, be it empty, has been submitted since the last handled event |
| `TcpClientLaws.FailedWriteLosesOneRecord` | src/net/tcp_client.cpp:195-202 | a failed write loses the record that it was to write, and nothing else |
| `TcpClientEvents.WriteTakes` | src/net/tcp_client.cpp:195-204 | a write that returns n takes n bytes off the head record and leaves the rest of it queued; EAGAIN changes nothing; another error drops the head record |
| `TcpClientEvents.EventWrites` | src/net/tcp_client.cpp:158-187 | an event that reads and writes: the reaction of the callback is queued first, then the write takes what it returns off the head of that queue, and write interest is armed exactly if something is left |
| `TcpClientEvents.OtherEvents` | src/net/tcp_client.cpp:142-171 | an error event changes nothing, a failed read fails the client, a zero-byte read closes it, and data from outside is queued |
| `TcpClientEvents.SentIsReturned` | src/net/tcp_client.cpp:142-205 | over every run, as many bytes are sent as the calls of `write` have returned |
| `TcpClientLaws.WritingDrains` | src/net/tcp_client.cpp:142-205 | as many productive write events as there are pending bytes empty the queue; until then write interest stays armed |
| `EndToEnd.NextKeeps` | src/net/tcp_client.cpp:142-205 | every turn of either end keeps the invariant of both ways |
| `EndToEnd.LinesArriveInOrder` | src/net/connection_line_buffer.cpp:46-72 | full duplex, for every interleaving of writes, partial writes, callback reactions and chunks of at most 1024 bytes: each end has seen exactly the lines of a prefix of what the other has submitted, in order, each once |
| `EndToEnd.AllLinesArrive` | src/net/tcp_client.cpp:142-205 | on either way: once queue and channel are empty, all that was submitted has arrived and all its lines have been seen |
| `EndToEnd.ArrivedLinesMerge` | src/net/connection_line_buffer.cpp:46-72 | on either way, with carriage returns too: the calls are the lines of what has arrived, up to CRLFs that were cut |
| `EndToEnd.NothingIsLostOnTheWay` | src/net/connection_line_buffer.cpp:46-72 | on either way, for every stream and every run short of a failed write: the submitted data is, in order, what the calls reported with its terminators, the line buffer, the channel and the queue |
| `EndToEnd.MovesAreBounded` | src/net/tcp_client.cpp:182-205 | on either way, while the sender runs and gets no more data, each byte sent or received counts down what is outstanding, and no other turn counts it up |
| `EndToEnd.SomethingCanMove` | src/net/tcp_client.cpp:182-186 | as long as both ends run and something is outstanding, a `recv` or a write, for which the sender is armed, moves a byte |
| `EndToEnd.AllCanBeDelivered` | src/net/tcp_client.cpp:153-205 | from every such state a run exists that delivers all that was submitted, on both ways |
| `EndToEnd.EnoughMovesDeliverAll` | src/net/tcp_client.cpp:153-205 | on either way, from every reachable state: every continuation with as many moves as are outstanding, whatever else happens in it, delivers all that was submitted, and all its lines have been seen |
| `Hexdump.HexdumpToStream` | src/utils/hexdump.cpp:10-91 | appends the rows from the start offset to the one that covers the end |
| `Hexdump.PutRow` | src/utils/hexdump.cpp:30-89 | appends one row: label, fields, and text column or cut |
| `Hexdump.HexdumpToString` | src/utils/hexdump.cpp:122-149 | the dump as a string |
| `HexdumpLaws.Columns` | src/utils/hexdump.cpp:41-51 | field idx starts at 2\*idx + idx\*space_per_byte + (idx/bytes_per_group)\*space_per_group |
| `HexdumpLaws.ColumnsWithoutGroups` | src/utils/hexdump.cpp:41-51 | without groups field idx starts at 2\*idx + idx\*space_per_byte |
| `HexdumpLaws.CutEndsBehindLast` | src/utils/hexdump.cpp:86 | the cut of a row that shows something ends right behind its last shown field |
| `HexdumpLaws.BlankRowIsEmpty` | src/utils/hexdump.cpp:86 | a row that shows nothing is cut to nothing exactly if the wrapped length is 0 |
| `HexdumpLaws.BlankRowIsKept` | src/utils/hexdump.cpp:86 | a row of three missing bytes is printed as eight spaces |
| `HexdumpLaws.BodyRoundTrip` | src/utils/hexdump.cpp:41-87 | every field of a row can be read back by its column |
| `HexdumpLaws.TextColumn` | src/utils/hexdump.cpp:59-84 | the text column starts at a fixed place and ends with the last shown cell; each character is the printable byte of its cell, a dot for another byte, a question mark for an unknown one, a space for a missing one |
| `HexdumpLaws.LabelRoundTrip` | src/utils/hexdump.cpp:34 | the label of a row is its offset modulo 2^64 in hexadecimal digits of the chosen case, at least eight, and without a leading zero if there are more |
| `HexdumpLaws.RowIsFound` | src/utils/hexdump.cpp:34-89 | the first line of a dump, behind its label, is the body of the first row |
| `HexdumpText.LinesOfDump` | src/utils/hexdump.cpp:25-90 | the lines of a dump are one for each row of the range: the label of its own offset, a separator, and its body; and nothing else |
| `HexdumpText.LabelText` | src/utils/hexdump.cpp:30-34 | a label is the hexadecimal numeral of the offset modulo 2^64, in characters of the chosen table |
| `HexdumpText.FieldText` | src/utils/hexdump.cpp:53-82 | a field is the two table characters of its byte in the chosen case, `??` for an unknown one, blank for a missing one |
| `HexdumpText.TextualBody` | src/utils/hexdump.cpp:41-84 | with a text column: every field with only spaces in front of it, the separator behind the last one, and a character for each cell up to the last one shown |
| `HexdumpText.CutBody` | src/utils/hexdump.cpp:41-87 | without one: every field up to the last one shown with only spaces in front of it, and nothing behind it |
| `HexdumpText.BlankBody` | src/utils/hexdump.cpp:86 | a row that shows nothing is spaces, as many as the wrapped length says, at most a full row |
| `HexdumpLaws.DumpRoundTrip` | src/utils/hexdump.cpp:25-90 | from the dump and the call's parameters, what the read function has said about every covered offset can be read back: its byte, that it is unknown, or that it does not exist |
| `HexdumpLaws.EqualDumpsShowEqualCells` | src/utils/hexdump.cpp:25-90 | equal dumps of a range imply read functions that agree on all of it |
| `HexdumpLaws.CoversTheRange` | src/utils/hexdump.cpp:25-29 | the rows cover the range and less than a line more |
| `HexdumpLaws.BufferRoundTrip` | src/utils/hexdump.cpp:93-191 | any range of a buffer can be read back from its dump, and what lies outside the buffer reads as missing |
| `HexdumpLaws.WholeBuffer` | src/utils/hexdump.cpp:93-191 | a buffer can be read back from its dump, and less than a line behind it reads as missing |
| `HexdumpLaws.DumpInParts` | src/utils/hexdump.cpp:23-90 | a dump is the dump of its first k rows followed by the dump from there, whose first row carries the label of its own offset |
| `HexdumpLaws.AlignTowardsZero` | src/utils/hexdump.cpp:193-199 | the aligned offset is the multiple of the line length next to the offset, towards zero |
| `HexdumpLaws.AlignIsRowStart` | src/utils/hexdump.cpp:193-199 | it lies at or before the offset exactly if the offset is not negative or is aligned already |
| `HexdumpLaws.AlignOfMinusOne` | src/utils/hexdump.cpp:197 | offset -1 is aligned to 0 |

## Left out

- ConnectionLineBuffer.ConnDataInCb: resumes the search behind the terminator, where the code resumes it at the terminator; the code's own loop, for any search, is `LiteralLoop`.
- TcpClient.CbEv: a closed or failed client takes no more steps; the destruction of the object on a zero-byte read and the handling of the thrown exceptions are not modelled.
- PlaceDotted: the lines of the loop for an embedded address, as a method of its own, and so is `SkipGroup`; in the code both are inline.
- PutRow: the body of the outer loop of the dump, as a method of its own; in the code it is inline.
- HexdumpToStream: offsets are unbounded integers, so an overflow of `off_t` near the end of its range is not modelled; the label and the cut length are computed modulo 2^64 as in the code.
- HexdumpToStream: layouts with which the code loops for ever or divides by zero are excluded (`Legal`).
- DumpRoundTrip: for rows without a text column, rows that would not fit into memory (2^64 characters) are excluded.
- NextKeeps: that the peer has closed, or that an error has occurred, may be reported at any time; what makes it happen is not modelled.
- The stream's own formatting state before the call (a stream already set to upper case), and the `!!` branch for a read function that returns neither a byte nor a marker.
- Read functions of the dump that answer differently when asked twice, and line callbacks that call back into the buffer.
- `inet_addr`, `inet_aton`, `inet_pton`, the literal operators and `_ipport`: wrappers without logic of their own.
- Sockets, name resolution, connection setup, accepting connections, file descriptors and the event library itself.
- Copying of queue records by move instead of by copy, which only saves work.
- The curses wrappers, the user interface, the version checks and the daemon notification: no algorithms.
