# Verified models of smithproxy's codecs, address algebra and state machines

Six parts of smithproxy that work on bytes or on state alone are modelled here in Dafny, in the form the C++ code has
(loops, arrays, objects that change), and proved against specifications of what they compute. The properties the parts
are for are then proved about the specifications, for all inputs and all runs.

| part | files | what is proved, above all |
|---|---|---|
| HPACK | `Bits`, `Huffman*`, `Hpack*` | Huffman coding is inverted and its tree is complete; which blocks a decoder with the eviction of RFC 7541 recovers, which the program's own decoder returns; every representation of the standard is read |
| libcidr | `Cidr*` | containment is set inclusion, the interval law, subnets partition; text round trip of every well-formed block; every form of addresses and netmasks is read, or exactly not |
| templates | `Template*` | tokenizer and unparser are inverse; the loaded tree, with any blocks of it repeated, renders to a one-pass meaning of its tokens; repeated blocks are independent; names find the blocks of their tokens |
| HTTP/2 frames | `Http2*` | frames are read as they are laid out; over every delivery of a flow, exactly when each frame is handled once |
| DNS | `Dns*` | requests are read back exactly for names with fitting labels; a cached reply is the stored one but for id and lifetimes, for a standard reader too if its names are pointers, and answers the question asked; what every exchange with the cache sends |
| SOCKS | `Socks*` | over all runs one reply, and the right one, before every hand-over, and the peers that the bytes of the request name |

Bytes are integers from 0 to 255 and bit operations are written out as arithmetic on them. A class stands for a class of
the source; a function beside it says what its methods compute, and the lemmas speak about that function.

Where the code differs from its own comments or from the standard it follows, the model has what the code does:

* The HPACK decoder never inserts literals into its table, gives up after 100 representations, and throws on an empty
  string at the end of its input; `HpackRoundTrip.BlockRoundTrip` is the exact condition under which it still returns
  what was sent. Eviction counts no overhead of 32 octets and does not look at the new entry (RFC 7541, sections 4.1
  and 4.4), so the table keeps more than the standard's; `HpackReference.LosslessByStandard` is the exact condition under
  which a decoder that follows the standard still recovers a block, and `OutOfReachHappens` a block it does not.
* The guard of the Huffman length admits 127 (`HpackReference.LengthOf127`), and the branch for an indexed name without
  Huffman coding writes no length (`IndexedNameWithoutHuffman`): such a request is never read back to its end, and its
  header only by chance (`HeaderByChance`, `ReadByChanceHappens`).
* The comment in `cidr_from_str` promises that a decimal number of 32 bits after the slash is read as a netmask. The
  test for it sign-extends `1 << 31` and is never true; such a number is read as the prefix length 0
  (`CidrLimits.DecimalPrefix`, `DecimalAsPromised`, `NetmaskLost`).
* The guard against too many groups before a `::` waits for 15 octets, which come two at a time; with more than eight
  groups before it the parser writes past the address, the outcome `PastTheEnd`, and other texts with more than eight
  groups are accepted with groups lost (`CidrLimits.GroupsAround`, `AroundAsWritten`).
* `cidr_net_supernet` and `cidr_net_subnets` count on with the length -1 of a mask that is not contiguous
  (`CidrBlock.NotContiguous`).
* The DNS loader's inner loop stays at the zero byte of the first question, so further questions repeat it
  (`DnsMessage.QuestionsReadBack`); compression pointers add their high bits (`PointerTargetIsRight`). The names
  of answers are taken to be two bytes long: answers are read as RFC 1035 lays them out if and only if all their names
  are pointers (`DnsStandard.AnswersAreRight`), and else a reply from the cache can be unreadable (`BrokenReplay`).
* A lapsed cache entry leaves the verdict and an earlier copy as they are, and the copy is sent again, with its old id and
  shortened once more (`DnsExchange.RequestAnswered`, `StaleAfterHit`); so does data of the other side
  (`ResponseResends`). Behind the second of several responses in one flow entry the loop goes on at the wrong place
  (`OnlyTwoResponses`).
* The HTTP/2 engine keeps an offset only once it has seen the connection magic; `Http2.EachOnce` is the exact condition
  under which each frame is handled once.
* The SOCKS proxy accepts the command of an association whatever the policy says, also in version 4, where it is served
  as a connection (`Socks.FollowsPolicy`).
* A SOCKS request of version 5 for a name of one or two bytes is waited on and not taken (`SocksBytes.ShortRequestWaits`);
  one for a name whose blocking query fails goes on with the host unset (`SocksBytes.LeadsTo`).
* A SOCKS reply to a request for an IPv6 address names 0.0.0.0; the cached addresses of a name are collected into a copy
  and so never used; a failed association can be answered twice if its hand-over is still reported to the proxy.

## Model

| member | source | states |
|---|---|---|
| `HuffmanCode.NextWord` | src/ext/hpack/hpack.hpp:93-354 | the 257 code words are a canonical code: in the order of their lengths each is the one before it plus one, followed by zeros up to its own length, and the first is zero |
| `HuffmanCode.WordRange` | src/ext/hpack/hpack.hpp:93-354 | every code word is found in the sorted table at the rank that its length and value give: the number of shorter words, plus its value less the first of its length |
| `HuffmanCode.PrefixFree` | src/ext/hpack/hpack.hpp:93-354 | no code word is a prefix of another, and no two symbols share one |
| `HuffmanCode.NodeIsComplete` | src/ext/hpack/hpack.hpp:399-424 | every node of the decoding tree that is no code word has both children |
| `HuffmanCode.UnpassedIsNode` | src/ext/hpack/hpack.hpp:399-424 | every bit string that has not run past a code word leads to a node |
| `HuffmanCode.PaddingIsNoWord` | src/ext/hpack/hpack.hpp:669-679 | up to seven one-bits lead to a node and never complete a code word |
| `HuffmanCoder.DecodeUndoesEncode` | src/ext/hpack/hpack.hpp:428-461 | for every byte string, decoding the coded and padded bits gives the string back |
| `HuffmanCoder.DecodeNeverFails` | src/ext/hpack/hpack.hpp:436-446 | no input of any kind makes the decoder miss a child, so neither internal-error exception can be raised |
| `HuffmanCoder.HuffmanEncoder.constructor` | src/ext/hpack/hpack.hpp:649-649 | the bit state starts at (0, 8) |
| `HuffmanCoder.HuffmanEncoder.WriteBit` | src/ext/hpack/hpack.hpp:634-646 | a bit joins the pending ones; the byte is handed over with the eighth |
| `HuffmanCoder.HuffmanEncoder.Encode` | src/ext/hpack/hpack.hpp:651-683 | writes exactly the code words of the string and the padding, and leaves the bit state at (0, 8) |
| `HuffmanCoder.SetLowBitsAppendsOnes` | src/ext/hpack/hpack.hpp:669-679 | filling the free low bits of the last byte appends ones to its bits |
| `HuffmanTree.Tree.constructor` | src/ext/hpack/hpack.hpp:399-424 | building the tree puts a coded node at exactly the code words |
| `HuffmanTree.Tree.Insert` | src/ext/hpack/hpack.hpp:401-422 | one code word is added, and the nodes of all the others stay what they were |
| `HuffmanTree.Tree.Advance` | src/ext/hpack/hpack.hpp:436-446 | one bit leads to the child for the longer path, or to the error of a missing child |
| `HuffmanTree.Tree.Decode` | src/ext/hpack/hpack.hpp:428-461 | walking the pointers gives what the walk over paths gives, for every input |
| `HuffmanTree.Tree.NodeMeaning` | src/ext/hpack/hpack.hpp:399-461 | a node reached by a path exists and is coded exactly if the path is a node, and a word, of the code |
| `HpackInteger.EncodeInteger` | src/ext/hpack/hpack.hpp:985-1004 | appends the value with an n-bit prefix, as the specification of the bytes says |
| `HpackInteger.DecodeInteger` | src/ext/hpack/hpack.hpp:723-747 | the value and where the iterator is left; undefined past the end and from 2^31 on |
| `HpackInteger.IntegerRoundTrip` | src/ext/hpack/hpack.hpp:723-747 | for every width from 1 to 8, any flag bits above the prefix and any bytes around it, what is written is read back and the reader stops exactly behind it, if and only if the value is below 2^31 |
| `HpackTable.EvictsFewest` | src/ext/hpack/hpack.hpp:493-547 | eviction ends below a non-zero maximum, and keeping one entry more would not have |
| `HpackTable.AddedExactly` | src/ext/hpack/hpack.hpp:525-547 | an insertion keeps the new header, whatever its size, and of the others exactly the longest beginning smaller than the maximum |
| `HpackTable.TableHistory` | src/ext/hpack/hpack.hpp:475-547 | after any run of insertions and resizes the table is a prefix of the insertions, newest first; all entries but the newest are smaller than a non-zero maximum; a zero maximum leaves at most one |
| `HpackTable.IndexIsAge` | src/ext/hpack/hpack.hpp:614-622 | after any run, index 62 is the newest insertion and each further index the one before it, as far as the table reaches; after a run that ends in an insertion the newest is there, whatever its size |
| `HpackTable.RingTable.Length` | src/ext/hpack/hpack.hpp:493-521 | the sum of the lengths of names and values |
| `HpackTable.RingTable.SetMax` | src/ext/hpack/hpack.hpp:475-491 | the maximum is set and the oldest entries are dropped |
| `HpackTable.RingTable.Add` | src/ext/hpack/hpack.hpp:525-547 | eviction looks at the old entries only, then the new one is put in front |
| `HpackTable.RingTable.Find` | src/ext/hpack/hpack.hpp:592-612 | the first entry with the name decides, exact or not |
| `HpackEncoder.FoundStaticIs` | src/ext/hpack/hpack.hpp:957-970 | the first exact static match is given; without one the last static entry of that name, or none |
| `HpackEncoder.FoundInOrder` | src/ext/hpack/hpack.hpp:957-983 | an exact static match comes first, then the newest dynamic entry of the name, exact or not, then the last static one |
| `HpackEncoder.FoundLeadsBack` | src/ext/hpack/hpack.hpp:957-983 | the index that is found leads back to the header if it is exact, else to one of that name; there is none exactly if no static and no dynamic entry has the name |
| `HpackEncoder.Encoder.Find` | src/ext/hpack/hpack.hpp:957-983 | the search through the static entries and the dynamic table gives that index |
| `HpackEncoder.Encoder.HuffEncode` | src/ext/hpack/hpack.hpp:938-955 | a length, whose prefix is wrong at 127, and the coded bytes are appended |
| `HpackEncoder.Encoder.Add` | src/ext/hpack/hpack.hpp:1076-1132 | appends the bytes of one request and moves the table, branch by branch, for every header and both flags |
| `HpackDecoder.Decoder.ParseString` | src/ext/hpack/hpack.hpp:749-771 | a string, an exception at the end of the data, or a read past it |
| `HpackDecoder.Decoder.DecodeOne` | src/ext/hpack/hpack.hpp:835-895 | one representation: table size, indexed, or literal |
| `HpackDecoder.Decoder.DecodeLiteral` | src/ext/hpack/hpack.hpp:869-891 | a literal is noted and never inserted into the table |
| `HpackDecoder.Decoder.Decode` | src/ext/hpack/hpack.hpp:824-898 | the loop over at most 100 representations does what the run of steps does |
| `HpackReference.PlainStringReads` | src/ext/hpack/hpack.hpp:749-771 | a plain string of any length below 2^31 is read back, whatever is around it |
| `HpackReference.HuffmanStringReads` | src/ext/hpack/hpack.hpp:938-955 | a Huffman-coded string is read back, whatever is around it, unless its coded length is 127 or too large |
| `HpackReference.HuffmanStringExactly` | src/ext/hpack/hpack.hpp:938-955 | whatever is around it, a Huffman-coded string is read back if and only if its coded length is not 127 and below 2^31 |
| `HpackReference.LengthOf127` | src/ext/hpack/hpack.hpp:945-946 | with a coded length of 127, whatever follows, the reader fails or goes on behind the end of the string |
| `HpackReference.LengthOf127Happens` | src/ext/hpack/hpack.hpp:945-946 | the coded length of 203 zeros is 127 |
| `HpackReference.WrittenReads` | src/ext/hpack/hpack.hpp:1076-1132 | one request is read back by a decoder whose table is the beginning of the encoder's, unless the index leads to an entry that table does not have; under either eviction the tables then move on alike |
| `HpackReference.BlockReads` | src/ext/hpack/hpack.hpp:1076-1132 | a block, behind any bytes and from any tables, gives exactly its headers, or is an error if one of its indices is out of reach |
| `HpackReference.Lossless` | src/ext/hpack/hpack.hpp:1076-1132 | a decoder that shares the encoder's eviction recovers exactly the headers of a block, in order, and ends with the encoder's table |
| `HpackStandard.AddedIsPrefix` | src/ext/hpack/hpack.hpp:525-547 | the table of RFC 7541 (32 octets more an entry, evicting before the insertion, emptied by an entry too large) stays a beginning of this one: the source evicts less |
| `HpackLayout.IntegerLayout` | src/ext/hpack/hpack.hpp:985-1004 | the bytes of an integer are a prefix and groups of seven bits, the lowest first, all but the last with the top bit, that add up to it: RFC 7541, section 5.1 |
| `HpackLayout.LayoutIsRead` | src/ext/hpack/hpack.hpp:835-895 | every representation of section 6 of RFC 7541, whoever has written it, with every index and every string, wherever it stands: the decoder reads 7 bits of index, 6 or 4, or 5 of size, notes that header and stops behind it |
| `HpackLayout.BlockIsRead` | src/ext/hpack/hpack.hpp:824-898 | so it is with whole blocks, up to the limit of rounds |
| `HpackLayout.DecodeLayout` | src/ext/hpack/hpack.hpp:824-898 | the decoder object on such a block |
| `HpackLayout.LayoutByStandard` | src/ext/hpack/hpack.hpp:835-895 | the reference decoder reads each representation as the standard says, with either eviction |
| `HpackLayout.WrittenIsLayout` | src/ext/hpack/hpack.hpp:1076-1132 | what the encoder writes, where it can be read back, is the representation of the request as the standard lays it out, never indexed ones among them |
| `HpackLayout.StepByStandard` | src/ext/hpack/hpack.hpp:835-895 | on arbitrary bytes one round notes the header the standard reads and goes on where it does, unless an empty value ends the data, and makes its change of the size; where the standard has an error it stops or passes an unknown index over |
| `HpackReference.LosslessByStandard` | src/ext/hpack/hpack.hpp:493-547 | a decoder with the eviction of RFC 7541, sections 4.1 to 4.4, recovers a block if and only if the encoder gives no index of an entry that the standard's table no longer has; else it stops with an error |
| `HpackReference.SmallBlocksAreInReach` | src/ext/hpack/hpack.hpp:493-547 | that holds whenever all headers of the block together fit the standard's table |
| `HpackReference.OutOfReachHappens` | src/ext/hpack/hpack.hpp:493-547 | it does not always hold: the first of two short headers in a table of 40 octets, sent again |
| `HuffmanHigh.DecodedHigh` | src/ext/hpack/hpack.hpp:428-461 | whatever is decoded, the text has at most as many bytes of 128 and above as the coded bytes: each such byte has a word that covers a byte of ones |
| `HpackReference.NothingSpellsItself` | src/ext/hpack/hpack.hpp:749-771 | whatever stands before and behind a text, a string read from its first byte on is another text or goes on behind it |
| `HpackReference.IndexedNameWithoutHuffman` | src/ext/hpack/hpack.hpp:1100-1106 | the branch without Huffman coding and with an indexed name, which writes no length: behind any bytes, before any bytes, with any table and either eviction, the value read is another one or the reading goes on behind the request |
| `HpackReference.DroppedLengthAtTheEnd` | src/ext/hpack/hpack.hpp:1100-1106 | a block of one such request never gives its header back, for any value and either eviction |
| `HpackReference.ReadByChance` | src/ext/hpack/hpack.hpp:749-771 | a value whose first byte is a whole plain length is read from where it stands if and only if it is n times the byte n and one more follows; then the reading ends one byte behind it |
| `HpackReference.HeaderByChance` | src/ext/hpack/hpack.hpp:1100-1106 | so a request of that branch, its value beginning with a whole plain length, gives its header back under exactly that condition, though never its end |
| `HpackReference.ReadByChanceHappens` | src/ext/hpack/hpack.hpp:1100-1106 | that happens: an authority of sixteen bytes 16 in front of a request that is never indexed |
| `HpackRoundTrip.RequestSeen` | src/ext/hpack/hpack.hpp:824-898 | what the repository's decoder notes for one request, and when it throws |
| `HpackRoundTrip.BlockSeen` | src/ext/hpack/hpack.hpp:824-898 | the outcome and the headers of a whole block, from any round on |
| `HpackRoundTrip.LossShows` | src/ext/hpack/hpack.hpp:869-891 | if a request is lost, some name is noted less often than it was sent |
| `HpackRoundTrip.KeptAreFew` | src/ext/hpack/hpack.hpp:835-835 | blocks that are kept have at most 100 headers |
| `HpackRoundTrip.BlockRoundTrip` | src/ext/hpack/hpack.hpp:824-898 | a fresh decoder returns true and holds exactly the headers a fresh encoder was given, grouped by name in order, if and only if there are at most 100, no empty string ends the block, and no request needs a dynamic index (but for an indexed empty name) |
| `HpackRoundTrip.OrdinaryIsKept` | src/ext/hpack/hpack.hpp:957-983 | up to 100 headers with non-empty values, whose names differ where there is no exact static match, meet that condition |
| `HpackRoundTrip.EncodeBlock` | src/ext/hpack/hpack.hpp:1076-1132 | a fresh encoder writes the block |
| `HpackRoundTrip.Deliver` | src/ext/hpack/hpack.hpp:824-898 | the encoder and the decoder objects one after the other: the headers arrive if and only if that condition holds |
| `CidrBlock.PrefixLengthOf` | src/ext/libcidr/cidr.cpp:1522-1568 | the prefix length of a well-formed block is its number of ones within the protocol's bits |
| `CidrBlock.MatchesByPrefix` | src/ext/libcidr/cidr.cpp:445-514 | a well-formed block is matched by exactly the addresses that share its prefix |
| `CidrBlock.ContainsIsInclusion` | src/ext/libcidr/cidr.cpp:445-514 | one block contains another of its protocol if and only if every address that matches the second matches the first |
| `CidrBlock.ContainsIsPreorder` | src/ext/libcidr/cidr.cpp:445-514 | containment is reflexive and transitive |
| `CidrBlock.ContainsIsAntisymmetric` | src/ext/libcidr/cidr.cpp:445-514 | blocks that contain each other have equal networks |
| `CidrBlock.EqualMeans` | src/ext/libcidr/cidr.cpp:519-540 | well-formed blocks are equal if and only if protocol, prefix length and address bits are |
| `CidrBlock.IntervalLaw` | src/ext/libcidr/cidr.cpp:295-378 | the members of a block are exactly the big-endian values from its network to its broadcast address, and there are 2 to the number of host bits of them |
| `CidrBlock.NetworkIdempotent` | src/ext/libcidr/cidr.cpp:295-378 | network and broadcast address, taken again in any order, are the last one taken |
| `CidrBlock.SubnetsPartition` | src/ext/libcidr/cidr.cpp:1943-1997 | the two halves are disjoint and together are the block |
| `CidrBlock.SupernetOfSubnet` | src/ext/libcidr/cidr.cpp:1892-1938 | the supernet of either half is the network of the block |
| `CidrBlock.GivenForWellFormed` | src/ext/libcidr/cidr.cpp:1892-1997 | what the two functions compute on any block is the supernet and the halves of every well-formed one |
| `CidrBlock.NotContiguous` | src/ext/libcidr/cidr.cpp:1892-1997 | and for the length -1 of a mask that is not contiguous: an IPv6 address is cleared under the same mask, and both halves are the network; in IPv4 only a bit in front of the four octets changes in the mask |
| `CidrOps.CopyNetworkBits` | src/ext/libcidr/cidr.cpp:313-323 | the bits under the leading ones of the mask are copied, and the first host bit is found |
| `CidrOps.AddrNetwork` | src/ext/libcidr/cidr.cpp:295-331 | the network address, null for null; for every mask, contiguous or not |
| `CidrOps.FillHostBits` | src/ext/libcidr/cidr.cpp:369-374 | every bit from a position on is set and nothing before it changes |
| `CidrOps.AddrBroadcast` | src/ext/libcidr/cidr.cpp:336-378 | the broadcast address, null for null |
| `CidrOps.GetPflen` | src/ext/libcidr/cidr.cpp:1522-1568 | the prefix length, -1 exactly for null, no protocol, or a one after a zero |
| `CidrOps.ContainsBlock` | src/ext/libcidr/cidr.cpp:445-514 | 0 exactly for containment, -1 otherwise |
| `CidrOps.EqualBlocks` | src/ext/libcidr/cidr.cpp:519-540 | 0 exactly for equal protocol, addresses and masks within the protocol's octets |
| `CidrOps.Dup` | src/ext/libcidr/cidr.cpp:1831-1840 | a block of its own with the same value |
| `CidrOps.NetSupernet` | src/ext/libcidr/cidr.cpp:1892-1938 | for every block: null exactly for null and an empty prefix, else the specified block, in memory of its own |
| `CidrOps.ClearHostBits` | src/ext/libcidr/cidr.cpp:1930-1934 | every bit from a position on is cleared and nothing before it changes |
| `CidrOps.NetSubnets` | src/ext/libcidr/cidr.cpp:1943-1997 | for every block: no pair exactly for null and a host, else the two specified blocks, in memory of their own |
| `CidrText.StrtoulReads` | src/ext/libcidr/cidr.cpp:1099-1104 | a printed number followed by no digit is read back, in base 10 and 16 |
| `CidrPrint.LongestRunUnique` | src/ext/libcidr/cidr.cpp:2254-2293 | the longest run of zero groups, first among equals, is unique |
| `CidrPrint.OneZeroIsARun` | src/ext/libcidr/cidr.cpp:2254-2293 | a single group of zero is a run already |
| `CidrPrint.FindRun` | src/ext/libcidr/cidr.cpp:2254-2293 | the scan over the octets finds the longest run of zero groups, and the first of that length |
| `CidrPrint.V6ToStr` | src/ext/libcidr/cidr.cpp:2301-2346 | the groups in hexadecimal with that run written as two colons |
| `CidrPrint.V4ToStr` | src/ext/libcidr/cidr.cpp:2166-2172 | four decimal octets with dots between them |
| `CidrPrint.CidrToStr` | src/ext/libcidr/cidr.cpp:2069-2420 | without flags: the text of the block and its prefix length; null exactly for null, no protocol or a mask that is not contiguous |
| `CidrParser.FindPrefix` | src/ext/libcidr/cidr.cpp:799-861 | the last slash, and whether a netmask follows it |
| `CidrParser.CountSections` | src/ext/libcidr/cidr.cpp:922-935 | one more than the dots before the prefix, and an error for more than three |
| `CidrParser.SetPrefixBits` | src/ext/libcidr/cidr.cpp:1054-1069 | the mask of the prefix length, written octet by octet from the last |
| `CidrParser.ReadV4` | src/ext/libcidr/cidr.cpp:1076-1163 | the numbers from the last to the first, in three bases, the last one extended over missing sections |
| `CidrParser.StoreV4` | src/ext/libcidr/cidr.cpp:1132-1150 | the octets one number fills |
| `CidrParser.ReadDotted` | src/ext/libcidr/cidr.cpp:1292-1336 | four dotted decimal octets at the end of an IPv6 address |
| `CidrParser.ReadV6Back` | src/ext/libcidr/cidr.cpp:1285-1401 | the groups from the end back to two colons or to the start |
| `CidrParser.ReadV6Forward` | src/ext/libcidr/cidr.cpp:1407-1499 | the groups before the two colons, forwards; writing past the sixteenth octet is an outcome of its own |
| `CidrParser.FinishParse` | src/ext/libcidr/cidr.cpp:944-1083 | range of the prefix length, mask and address, for both protocols |
| `CidrParser.ReadMask` | src/ext/libcidr/cidr.cpp:975-1000 | the netmask after the slash as a prefix length |
| `CidrParser.CidrFromStr` | src/ext/libcidr/cidr.cpp:550-1511 | for every text: the block, null, a reverse name, or a write past the address, as the specification of the parser says |
| `CidrRoundTrip.ParsesZero` | src/ext/libcidr/cidr.cpp:875-905 | the text 0 is an IPv4 address of four zero octets |
| `CidrRoundTrip.ZeroMask` | src/ext/libcidr/cidr.cpp:834-842 | a prefix of /0, read as a netmask by way of that address, has length 0 for both protocols |
| `CidrRoundTrip.V4Reads` | src/ext/libcidr/cidr.cpp:1076-1163 | the printed octets of every IPv4 address are read back |
| `CidrRoundTrip.V6BackReads` | src/ext/libcidr/cidr.cpp:1285-1401 | printed groups are read backwards up to two colons or to the start of the text |
| `CidrRoundTrip.V6FrontReads` | src/ext/libcidr/cidr.cpp:1407-1499 | printed groups before two colons are read forwards |
| `CidrRoundTrip.V6Reads` | src/ext/libcidr/cidr.cpp:1285-1499 | the printed form of every IPv6 address is read back, wherever its run of zeros lies |
| `CidrRoundTrip.TextRoundTrip` | src/ext/libcidr/cidr.cpp:2069-2420 | for every well-formed IPv4 and IPv6 block, its text is accepted and read as an equal block, of the same prefix length and address bits: every place and length of the compressed run, a run at the end, and /0 |
| `CidrRoundTrip.PrintAndParse` | src/ext/libcidr/cidr.cpp:550-1511 | printing, parsing and comparing the objects gives 0 |
| `CidrLimits.DecimalPrefix` | src/ext/libcidr/cidr.cpp:838-1008 | for every address text and every decimal number without leading zero behind the slash: the outcome is that of the address with the prefix length the number gives, clamped to 63 bits and cut to 32, all of it for a negative one, or a rejection |
| `CidrLimits.DecimalAsPromised` | src/ext/libcidr/cidr.cpp:838-856 | that is the prefix length or netmask the comment promises if and only if the number is below 2^31, or what is left of it is too large as well |
| `CidrLimits.NetmaskLost` | src/ext/libcidr/cidr.cpp:838-1008 | 255.255.255.0 in decimal is promised as 24 and read as 0 |
| `CidrLimits.GroupsAround` | src/ext/libcidr/cidr.cpp:1285-1499 | the outcome of every text of groups, two colons and groups, however many: eight groups or more behind the colons hide all before them, more than eight before them are written past the address, and those before overwrite those behind |
| `CidrLimits.AroundAsWritten` | src/ext/libcidr/cidr.cpp:1404-1466 | the groups are read as written, with zeros between, up to eight of them; with more, groups are lost without an error |
| `CidrLimits.EndsInGap` | src/ext/libcidr/cidr.cpp:1404-1466 | for every text of groups and a final double colon: parsed to its groups and zeros up to eight groups, and octets written past the address from the ninth on |
| `CidrForms.FormParses` | src/ext/libcidr/cidr.cpp:862-935 | every text of numerals with dots between them, decimal, octal or hexadecimal in any mixture: read exactly if there are up to four, a first one with others behind it has at most four characters, and each fits its octet, the last one all that are left |
| `CidrForms.NetmaskParses` | src/ext/libcidr/cidr.cpp:975-1000 | behind such an address, a slash and a netmask in any such form: the block of that many ones if the octets of the mask are ones and then zeros, else nothing |
| `CidrForms.PrintedNetmask` | src/ext/libcidr/cidr.cpp:975-1000 | so for every printed address and every printed mask of four octets |
| `CidrForms.FormWithPrefix` | src/ext/libcidr/cidr.cpp:1003-1008 | and for such an address, any number of slashes and a decimal number |
| `CidrForms.FormWithSlash` | src/ext/libcidr/cidr.cpp:958-966 | a slash at the end is as good as none |
| `CidrForms6.FormParses` | src/ext/libcidr/cidr.cpp:1285-1499 | every text of eight groups, or of groups around two colons, as the address it is |
| `CidrForms6.NetmaskParses` | src/ext/libcidr/cidr.cpp:1195-1215 | and with a netmask of groups behind the slash: the block of its ones if it is ones and then zeros, else nothing |
| `CidrForms6.QuadFormParses` | src/ext/libcidr/cidr.cpp:1292-1336 | four dotted octets at the end are read as the two groups they stand for |
| `TemplateTokens.UnparseTokens` | src/ext/nltemplate/nltemplate.cpp:146-196 | writing the tokens of any text gives the text |
| `TemplateTokens.TokensUnparsed` | src/ext/nltemplate/nltemplate.cpp:146-196 | tokenizing what any normal list of tokens is written as gives the list |
| `TemplateTokens.TokensAreNormal` | src/ext/nltemplate/nltemplate.cpp:146-196 | the tokens of any text are normal, so the two are inverse to each other |
| `TemplateTokens.TagsAreWritten` | src/ext/nltemplate/nltemplate.cpp:63-134 | the four kinds of tags as they are written |
| `TemplateTokens.TagStands` | src/ext/nltemplate/nltemplate.cpp:166-180 | a tag that stands at a position is the one found there, whatever the order of the attempts |
| `TemplateTokens.NoTagInText` | src/ext/nltemplate/nltemplate.cpp:182-188 | no tag begins in a piece of text and ends behind it |
| `TemplateTokens.MatchName` | src/ext/nltemplate/nltemplate.cpp:116-132 | a name of word characters up to the closing mark, or -1 |
| `TemplateTokens.MatchVar` | src/ext/nltemplate/nltemplate.cpp:63-91 | the variable at a position and its length, or -1 |
| `TemplateTokens.MatchTagWithParam` | src/ext/nltemplate/nltemplate.cpp:94-134 | the tag with a parameter at a position and its length, or -1 |
| `TemplateTokens.Tokenizer.constructor` | src/ext/nltemplate/nltemplate.cpp:137-143 | all tokens of the text are to come |
| `TemplateTokens.Tokenizer.FindTag` | src/ext/nltemplate/nltemplate.cpp:166-180 | the tag at the current position, tried in the source's order |
| `TemplateTokens.Tokenizer.Next` | src/ext/nltemplate/nltemplate.cpp:146-196 | the next token and nothing else is taken, a tag met behind text being kept for the next call; the end is given exactly when nothing is left |
| `TemplateTree.FindAfterSet` | src/ext/nltemplate/nltemplate.cpp:199-217 | what is set is found, and every other name is found as before |
| `TemplateTree.CopyIsPlain` | src/ext/nltemplate/nltemplate.cpp:297-304 | all blocks inside a copy are enabled and not repeated |
| `TemplateTree.CopyOfPlain` | src/ext/nltemplate/nltemplate.cpp:297-304 | a copy of a tree without disabled or repeated blocks is that tree |
| `TemplateTree.RepeatedRenders` | src/ext/nltemplate/nltemplate.cpp:328-355 | a repeated block renders as its copied body, so many times |
| `TemplateTree.PlainRepeats` | src/ext/nltemplate/nltemplate.cpp:328-355 | a body without disabled or repeated blocks repeats as it renders alone |
| `TemplateTree.OneNodeDiffers` | src/ext/nltemplate/nltemplate.cpp:345-355 | trees that differ in one node render alike but for the part of that node |
| `TemplateTree.Block.Set` | src/ext/nltemplate/nltemplate.cpp:209-217 | the first pair of that name is changed, or a new one is put behind |
| `TemplateTree.Block.FindBlock` | src/ext/nltemplate/nltemplate.cpp:283-290 | the first block of that name directly inside, or none |
| `TemplateTree.RenderBlock` | src/ext/nltemplate/nltemplate.cpp:345-355 | the objects render as the tree they stand for; nothing when disabled |
| `TemplateTree.RenderNode` | src/ext/nltemplate/nltemplate.cpp:275-279 | fragments in order, each variable from the node's own dictionary |
| `TemplateTree.ValueSame` | src/ext/nltemplate/nltemplate.cpp:275-304 | the tree of a block depends on nothing outside its own objects |
| `TemplateTree.Copy` | src/ext/nltemplate/nltemplate.cpp:297-304 | a copy stands for the copied tree and is made of new objects only |
| `TemplateTree.Repeat` | src/ext/nltemplate/nltemplate.cpp:328-337 | the block stands for the tree repeated n times, and the copies are new and share no object with each other or the block |
| `TemplateTree.OnlyOnePartChanges` | src/ext/nltemplate/nltemplate.cpp:340-355 | as long as the other copies keep their values, only the part of one copy in the output can change |
| `TemplateTree.SetInCopy` | src/ext/nltemplate/nltemplate.cpp:340-342 | setting a property in one copy leaves every other part of the output as it was |
| `TemplateLoad.DefinedIfBalanced` | src/ext/nltemplate/nltemplate.cpp:405-432 | a stream is loaded without using an empty stack if and only if no token comes after the end of the template itself |
| `TemplateLoad.OutputGrows` | src/ext/nltemplate/nltemplate.cpp:411-428 | one appended fragment extends the output of every open block at its end, where it shows |
| `TemplateLoad.LoadedMeaning` | src/ext/nltemplate/nltemplate.cpp:397-433 | the tree built with the stack renders to the one-pass meaning of the flat stream, for every stream, every dictionary of every block, and every choice of disabled blocks |
| `TemplateLoad.Loading.Take` | src/ext/nltemplate/nltemplate.cpp:408-427 | one token changes the objects as it changes the stack machine, and a block begins under its name |
| `TemplateLoad.Loading.LoadRecursive` | src/ext/nltemplate/nltemplate.cpp:397-434 | loading a file takes exactly its tokens with every include replaced by the included file's, none for a missing file |
| `TemplateLoad.HeldRenders` | src/ext/nltemplate/nltemplate.cpp:275-279 | the objects in memory render like the machine's entries |
| `TemplateLoad.LoadedRenders` | src/ext/nltemplate/nltemplate.cpp:450-464 | after loading, and after any change to dictionaries and switches of its blocks, the template renders to the meaning of the flat stream |
| `TemplateLoad.LoadAndRender` | src/ext/nltemplate/nltemplate.cpp:437-464 | clearing, loading and rendering the objects gives that meaning |
| `TemplateNames.EntriesAreListed` | src/ext/nltemplate/nltemplate.cpp:405-432 | a loaded block lists exactly the blocks whose tokens stand directly inside it, in the order in which they begin |
| `TemplateNames.FindLoaded` | src/ext/nltemplate/nltemplate.cpp:283-290 | on any loaded block a name finds the block of the first token of that name directly inside it, and nothing exactly if there is none |
| `TemplateNames.LoadAndFind` | src/ext/nltemplate/nltemplate.cpp:397-434 | loading a file and asking the template for a block |
| `TemplateRepeat.CopyRenders` | src/ext/nltemplate/nltemplate.cpp:297-304 | a copy renders like the entries of its block with every block inside enabled and none repeated |
| `TemplateRepeat.ShapedRenders` | src/ext/nltemplate/nltemplate.cpp:345-355 | a tree with repeated blocks inside, at any depth, renders like the entries: a repeated block as its copies |
| `TemplateRepeat.PassAgrees` | src/ext/nltemplate/nltemplate.cpp:397-433 | for every stream, every dictionary, switch and number of repetitions of every block: one pass that keeps an output and a copied output for each open block agrees with the stack machine |
| `TemplateRepeat.RepeatedMeaning` | src/ext/nltemplate/nltemplate.cpp:328-355 | a loaded template whose blocks have been filled in, switched and repeated renders to that meaning of the flat stream |
| `TemplateRepeat.RepeatAndRender` | src/ext/nltemplate/nltemplate.cpp:328-355 | repeating any block of a loaded template and rendering the objects gives that meaning |
| `Http2.Resume` | src/inspect/engine/http.cpp:534-599 | continuing at the offset where the shorter buffer stopped gives the frames of the longer one |
| `Http2.FirstCall` | src/inspect/engine/http.cpp:664-692 | the call that sees the magic handles the whole frames behind it and keeps the offset, in whichever entry it comes |
| `Http2.OpenCall` | src/inspect/engine/http.cpp:602-628 | a call without an offset and without the magic handles the whole frames of the last entry from its first byte |
| `Http2.LaterCall` | src/inspect/engine/http.cpp:602-727 | a call with an offset handles the whole frames behind it and moves it |
| `Http2.NextCall` | src/inspect/engine/http.cpp:602-727 | a call after any delivery, more bytes or a new flow entry: what is handled is the flow's frames in order, and how many of them again |
| `Http2.EachOnce` | src/inspect/engine/http.cpp:602-727 | over every run, whoever begins the flow and however it arrives, the whole frames of its entries are handled in order and each once if and only if no entry with a whole frame grows while no offset is kept |
| `Http2.MagicFirst` | src/inspect/engine/http.cpp:637-727 | if the first call sees the magic, that is so for every delivery of the flow |
| `Http2.MagicLater` | src/inspect/engine/http.cpp:602-692 | an entry that begins later starts the offset exactly if it is the client's, brings the whole magic at once, the magic is still looked for and the flow is short; once started it is kept from then on |
| `Http2.WithoutMagic` | src/inspect/engine/http.cpp:602-628 | as long as the magic has not been taken, every call of a run handles all whole frames of the last entry again from the first byte |
| `Http2.CtxWithoutMagic` | src/inspect/engine/http.cpp:602-628 | so it is for one growing entry that is the server's or whose first delivery does not begin with the whole magic |
| `Http2.Engine.ProcessFrame` | src/inspect/engine/http.cpp:534-599 | a whole frame is handled and its length given; 0 and nothing for an incomplete one; an exception exactly when the bytes of a priority are missing |
| `Http2.Engine.FindFrameSize` | src/inspect/engine/http.cpp:253-273 | the 24-bit length |
| `Http2.Engine.FindMagic` | src/inspect/engine/http.cpp:233-251 | the search through a view of 24 bytes finds the magic exactly when the data begin with it |
| `Http2.Engine.ReadFrames` | src/inspect/engine/http.cpp:694-723 | the loop handles exactly the whole frames and gives their total length |
| `Http2.Engine.Start` | src/inspect/engine/http.cpp:637-727 | one call, with all its early returns |
| `Http2Layout.FrameIsRead` | src/inspect/engine/http.cpp:534-599 | a frame laid out as section 4.1 of RFC 7540 says, with or without a priority, wherever it stands: type, flags, stream and data are read, and its end is found |
| `Http2Layout.FramesAreRead` | src/inspect/engine/http.cpp:694-723 | so it is with any number of them |
| `Http2Layout.Preface` | src/inspect/engine/http.hpp:170-171 | the magic is the connection preface of section 3.5 |
| `DnsMessage.DottedLabels` | src/inspect/dns.cpp:161-182 | the labels of a name, with dots between them, are the name |
| `DnsMessage.WriteName` | src/inspect/dns.cpp:155-182 | the loop that writes each length back into the byte of the dot before it |
| `DnsMessage.GenerateRequest` | src/inspect/dns.cpp:135-194 | header, labels, type and class of the request, byte for byte |
| `DnsMessage.QuestionsAreOver` | src/inspect/dns.cpp:343-427 | after the inner loop no question is left or the message is used up |
| `DnsMessage.QuestionsReadBack` | src/inspect/dns.cpp:343-427 | of a message with n questions the first is loaded n times; these are the questions it holds, and its length is counted right, if and only if there is one, or all are the same and ask for the root |
| `DnsMessage.RequestReadBack` | src/inspect/dns.cpp:340-428 | name, type and class of a generated request are read back and all of it is consumed, if and only if every label has from 1 to 255 bytes |
| `DnsMessage.UnfitLabelsMisread` | src/inspect/dns.cpp:135-194 | with any other label another name is read, or not all is consumed |
| `DnsMessage.PointerTargetIsRight` | src/inspect/dns.cpp:121-130 | a compression pointer leads where RFC 1035 says exactly if its target is below 256 |
| `DnsMessage.RequestName` | src/inspect/dns.cpp:97-133 | with labels below 0xC0 the name built at offset 12 is the first sixteen labels with dots between them |
| `DnsPacket.OffsetsInOrder` | src/inspect/dns.cpp:431-460 | the offsets kept for rewriting lie behind the start, inside the message, and at least four apart |
| `DnsPacket.RecordsSame` | src/inspect/dns.cpp:431-624 | records are read the same from a message that differs only in the kept fields |
| `DnsPacket.RequestLoads` | src/inspect/dns.cpp:310-637 | a generated request loads as exactly its one question, and to its end, if and only if every label has from 1 to 255 bytes |
| `DnsPacket.LifetimesInOrder` | src/inspect/dns.cpp:310-637 | for every message that loads, the kept offsets are behind the header, in bounds and at least four apart |
| `DnsPacket.Reload` | src/inspect/dns.cpp:310-637 | a message whose id and kept lifetimes are overwritten loads with the new ones and is otherwise the same: flags, questions, sections, types, classes and data |
| `DnsLoader.Message.LoadLabels` | src/inspect/dns.cpp:348-417 | the loop over labels and questions, as it is: after the first question it stays at the zero byte |
| `DnsLoader.Message.LoadQuestions` | src/inspect/dns.cpp:340-428 | the question section |
| `DnsLoader.Message.LoadAnswers` | src/inspect/dns.cpp:430-460 | answers with names of two bytes; each lifetime's offset is kept |
| `DnsLoader.Message.LoadAuthorities` | src/inspect/dns.cpp:462-512 | authority records of two types, a failure for any other |
| `DnsLoader.Message.LoadAdditionals` | src/inspect/dns.cpp:514-624 | additional records: addresses and texts are kept, options passed over, others end the message |
| `DnsLoader.Message.Load` | src/inspect/dns.cpp:310-637 | the consumed length and the lists, or none, exactly as the specification of the message says |
| `DnsCache.AgedOutside` | src/inspect/dnsinspector.cpp:376-385 | rewriting lifetimes changes no byte outside their fields |
| `DnsCache.AgedInside` | src/inspect/dnsinspector.cpp:376-385 | each kept lifetime is made shorter once |
| `DnsCache.RewrittenLoads` | src/inspect/dnsinspector.cpp:374-385 | a loaded message rewritten with any id and age loads with them, has the same offsets, and all else is as it was |
| `DnsCache.CachedReplay` | src/inspect/dnsinspector.cpp:150-178 | for a stored response that is alive: only id and kept lifetimes change, no lifetime wraps around, each is the stored one less the age, and the reply loads with the request's id and all else as stored |
| `DnsCache.SameKey` | src/inspect/dns.hpp:256-258 | questions for addresses have the same key if and only if they have the same type and the same name up to its first zero byte |
| `DnsStandard.AnswerIsRight` | src/inspect/dns.cpp:430-460 | an answer laid out as section 4.1.3 of RFC 1035 says is read as it is, with the offset of its lifetime, if and only if its name is a pointer and two bytes follow the length of its data |
| `DnsStandard.AnswersAreRight` | src/inspect/dns.cpp:430-460 | a whole answer section, whatever follows, is read as it is if and only if that holds of every answer |
| `DnsStandard.QuestionEndsRight` | src/inspect/dns.cpp:343-427 | behind one question without a pointer the answers are looked for where they begin |
| `DnsStandard.MessageIsRight` | src/inspect/dns.cpp:310-637 | the answers of a loaded message are those the standard reads from it if and only if all their names are pointers |
| `DnsStandard.StandardReplay` | src/inspect/dnsinspector.cpp:374-385 | then a message that differs only in the kept fields has, for a standard reader, the same answers but for these |
| `DnsStandard.MisreadAnswer` | src/inspect/dns.cpp:430-460 | the answer of the root's name is read with type 256, and the offset that is kept covers half of the length of its data |
| `DnsStandard.BrokenReplay` | src/inspect/dnsinspector.cpp:374-385 | a response with such a second answer is stored, and a standard reader can no longer read what is sent for it after 100 seconds |
| `DnsSections.RecordIsRight` | src/inspect/dns.cpp:431-624 | a record of any section, laid out as section 4.1.3 says, is read as it is if and only if its name can be skipped and its type is one the loader reads there; options are passed over |
| `DnsSections.SectionIsRight` | src/inspect/dns.cpp:431-624 | so is a section of such records, whatever follows |
| `DnsSections.WholeMessageIsRight` | src/inspect/dns.cpp:310-637 | and a whole message is loaded with its id, flags and exactly the records the standard has, by the counts of its header |
| `DnsSections.RequestByStandard` | src/inspect/dns.cpp:135-194 | a generated request, for labels of 1 to 63 bytes, is by the standard one question with that name, the type and the class of the internet |
| `DnsInspector.Inspector.TakeRequest` | src/inspect/dnsinspector.cpp:96-203 | one round: hit, lapsed entry, miss and other types give the new state, the kept copy with its id, offsets and age included |
| `DnsInspector.Inspector.TakeRequests` | src/inspect/dnsinspector.cpp:96-203 | the loop over up to ten requests of a flow entry |
| `DnsInspector.Inspector.CheckLifetimes` | src/inspect/dnsinspector.cpp:150-162 | alive exactly if no kept lifetime has run out |
| `DnsInspector.Inspector.TakeResponse` | src/inspect/dnsinspector.cpp:209-272 | one round: stored under its question exactly if its id has been asked for and an answer holds an address |
| `DnsInspector.Inspector.TakeResponses` | src/inspect/dnsinspector.cpp:209-272 | the loop over up to ten responses, which takes the length of one for the place of the next |
| `DnsInspector.Inspector.Update` | src/inspect/dnsinspector.cpp:48-276 | one call for the data of a flow entry, over both transports and for both sides |
| `DnsInspector.Inspector.ApplyVerdict` | src/inspect/dnsinspector.cpp:368-402 | the copy is rewritten in place and sent, behind its length over TCP, and stays behind as it was sent |
| `DnsInspector.Inspector.Inspect` | src/proxy/mitmhost.cpp:174-214 | update, and the verdict applied when it is to answer from the cache |
| `DnsInspector.AnswerFromCache` | src/inspect/dnsinspector.cpp:137-178 | the object given a request that meets a living response: the reply answers its question and loads as the stored one but for its id and shortened lifetimes |
| `DnsExchange.RequestAnswered` | src/proxy/mitmhost.cpp:174-214 | something is sent for a request exactly on a hit, or on a lapsed response with an earlier copy left; then that is what is sent, and it bears the id of the request if and only if it is a hit or the copy was made for that id |
| `DnsExchange.HitIsRead` | src/inspect/dnsinspector.cpp:137-178 | on a hit, over both transports, the reply loads with the id of the request, each kept lifetime less the age, and all else as stored |
| `DnsExchange.HitByStandard` | src/inspect/dnsinspector.cpp:137-178 | a standard reader gets the stored answers so too, if all their names are pointers |
| `DnsExchange.HitAnswersQuestion` | src/inspect/dnsinspector.cpp:137-178 | over every run, what is sent on a hit answers the question of the request: its type, A or AAAA, and its name up to the first zero byte |
| `DnsExchange.StoredIsHit` | src/inspect/dnsinspector.cpp:137-178 | over every run, once a response with an address has been taken whose id was asked for, a request with its question is a hit until a lifetime has run out |
| `DnsExchange.StoredExactly` | src/inspect/dnsinspector.cpp:278-300 | a response is stored if and only if its id has been asked for and an answer holds an address |
| `DnsExchange.PartOfMessage` | src/inspect/dnsinspector.cpp:83-90 | over TCP a message is waited for until there are as many bytes as its length says |
| `DnsExchange.AtMostTen` | src/inspect/dnsinspector.cpp:99-99 | at most ten requests of a flow entry are taken |
| `DnsExchange.StaleAfterHit` | src/proxy/mitmhost.cpp:174-214 | a lapsed response after a hit: the earlier reply is sent again, with the id of the first request and every lifetime shortened twice |
| `DnsExchange.ResponseResends` | src/proxy/mitmhost.cpp:174-214 | data of the other side sends an earlier copy again exactly if there is one |
| `DnsExchange.SentWasAsked` | src/proxy/mitmhost.cpp:174-214 | over every run of exchanges, whatever is sent loads, with an id that has been asked for |
| `DnsExchange.OnlyTwoResponses` | src/inspect/dnsinspector.cpp:209-236 | over UDP, of responses of the same length in one flow entry only the first two are taken |
| `Socks.StepKeeps` | src/proxy/socks5/sockshostcx.cpp:57-76 | every step keeps the invariant of the state machine |
| `Socks.RunKeeps` | src/proxy/socks5/sockshostcx.cpp:57-76 | so every run does |
| `Socks.Handoff` | src/proxy/socks5/sockshostcx.cpp:824-832 | over every run: HANDOFF only with exactly one reply written, of success if and only if the policy accepted, both peers prepared for a CONNECT; at most one A and one AAAA query; never a second reply |
| `Socks.ReplyCode` | src/proxy/socks5/sockshostcx.cpp:710-799 | the code of a reply of either version says success exactly for ACCEPT |
| `Socks.FollowsPolicy` | src/proxy/socks5/socksproxy.cpp:52-98 | the proxy does what the policy says exactly for a CONNECT without an error; where the policy refuses it accepts exactly the command of an association, which version 4 does not look at and serves as a connection |
| `Socks.AcceptedAgainstPolicy` | src/proxy/socks5/socksproxy.cpp:52-98 | such a request of version 4, the first message of a run, is accepted and answered with success |
| `Socks.SecondReply` | src/proxy/socks5/socksproxy.cpp:52-121 | the proxy's handler makes a second reply exactly on HANDOFF of a request that had failed otherwise than by malformed data |
| `Socks.SecondReplyHappens` | src/proxy/socks5/sockshostcx.cpp:562-566 | an association asked for with an unknown type of address gets there |
| `SocksBytes.GreetingIsAnswered` | src/proxy/socks5/sockshostcx.cpp:114-148 | a whole greeting is answered whatever methods it offers, a shorter one is waited for |
| `SocksBytes.LayoutParses` | src/proxy/socks5/sockshostcx.cpp:380-490 | a version 5 request of at least ten bytes is parsed as section 4 of RFC 1928 lays it out, for all three types of address |
| `SocksBytes.RequestIsTaken` | src/proxy/socks5/sockshostcx.cpp:492-560 | so every such request for a connection is understood: the policy is waited for with both peers ready, or the name is looked up |
| `SocksBytes.ShortRequestWaits` | src/proxy/socks5/sockshostcx.cpp:552-558 | such a request is left waiting if and only if it has fewer than ten bytes, which only names of one or two bytes have |
| `SocksBytes.HandoffBytes` | src/proxy/socks5/sockshostcx.cpp:57-76 | over every run: at the hand-over of a connection of either version both peers stand ready for the port and the host that the bytes of its request name, an address from an answer where the name was looked up, under that name and in the order of the settings; and the reply names them too |
| `SocksServer.ServerCX.ProcessIn` | src/proxy/socks5/sockshostcx.cpp:57-76 | reading keeps the invariant, never replies or decides, writes at most the greeting, and waits for the policy of a CONNECT only with both peers ready |
| `SocksServer.ServerCX.DnsResponseCallback` | src/proxy/socks5/sockshostcx.cpp:861-883 | an address of an answer makes both peers ready for it and the port asked for; an answer without one, and a failed read, keep the invariant and send nothing |
| `SocksServer.ServerCX.IsNewMessage` | src/proxy/socks5/sockshostcx.cpp:674-682 | the proxy is told of a pending policy exactly before there is a reply and of the hand-over exactly after it |
| `SocksServer.ServerCX.Decide` | src/proxy/socks5/sockshostcx.cpp:684-708 | a verdict on a pending policy writes exactly one reply, of success if and only if it is ACCEPT |
| `SocksServer.ServerCX.PreWrite` | src/proxy/socks5/sockshostcx.cpp:824-858 | the hand-over begins only with the one reply flushed, and no kind of query is sent twice |
| `SocksServer.ServerCX.OnLeftMessage` | src/proxy/socks5/socksproxy.cpp:52-121 | the proxy's handler leaves two replies exactly on HANDOFF of a failed request, and keeps the invariant otherwise |
| `SocksServer.Serve` | src/proxy/socks5/sockshostcx.cpp:57-883 | the object driven through any run of events is the machine after it, and at HANDOFF one right reply has been written behind at most the greeting, with both peers ready for what the bytes of the request name |

## Left out

- Threads, locks, sockets, epoll, TLS, logging and packet capture: the models see byte sequences and events.
- Memory that runs out, `errno`, and null arguments other than those the functions test for.
- HpackReference.Lossless, LosslessByStandard: blocks without changes of the table size after the first header; the encoder does not announce such a change, so its table and the decoder's would part.
- HpackRoundTrip.BlockRoundTrip: for requests whose bytes are readable at all (`HpackReference.Faithful`): a coded length of 127, or a value without its length, lets the decoder take other bytes for the string, and what it then makes of the rest of the block is not stated.
- HpackRoundTrip.Deliver: the same.
- HpackReference.ReadByChance, HeaderByChance: for values whose first byte is below 127; for others it is stated that the header and the end of the request are never both right, not when the header alone is.
- HpackLayout.StepByStandard: whether an empty value at the end of arbitrary bytes throws is left open; `LayoutIsRead` says it for bytes that are laid out.
- CidrForms.NetmaskParses, CidrForms6.NetmaskParses: netmasks of the protocol of the address; one of the other protocol is in the specification of the parser (`AsMask`), not in a theorem on texts.
- HpackDecoder.Decoder.Decode: reads past the end and sums of 2^31 or more end the model without a further claim.
- The exceptions of the ring table for total lengths of 2^64 or more.
- `cidr_to_str` with flags, pointer names (they are recognised, `ReverseName`, and not read), the tables of decimal counts, and conversions to and from socket addresses.
- CidrParser.CidrFromStr: blanks and plus signs before numbers, which `strtoul` would skip, cannot occur among the characters the parser admits.
- Template files on disk: a loader is a map from names to texts. The vector of open tokenizers is the recursion of `LoadRecursive`.
- TemplateLoad.Loading.LoadRecursive: for includes without cycles (a cycle never ends in the source) and for streams that leave no empty stack in use.
- Http2.Engine.Start, ProcessFrame, ReadFrames: frames flagged with a priority have no data or at least five bytes of it; with one to four a length wraps around, and what `buffer::view` does with it is not part of this model. What is done with the headers and data of a frame, and with exceptions from there, is not modelled. A frame without data is counted as handled although it is only logged.
- HTTP/1, the knowledge base and the detection of DNS over HTTP.
- The names of DNS answers, authorities and additional records; a rewritten lifetime could be part of a name that a compression pointer leads into.
- DnsInspector.Inspector.Update: the limits and the expiry of the cache, the cache of domains, and entries without stored bytes are not modelled; a response with an unknown id is an outcome, what the connection then does is not. Byte order is that of a little-endian machine, on which the length of an answer is the first two of the four bytes that are read.
- DnsCache.CachedReplay, DnsExchange.HitIsRead, HitByStandard: for a clock that has not gone back since the response was loaded.
- DnsExchange.RequestAnswered: for a flow entry that holds one whole request; entries with several are in the specification `AfterRequests`.
- TemplateRepeat.RepeatAndRender: one block is repeated in a template where none has been; any number of them is in `RepeatedMeaning`, as long as no copy has been changed.
- SOCKS over UDP, associations, BIND, and the fixed array of 128 bytes a reply is built in: a reply is a sequence.
- SocksServer.ServerCX.HandleConnectName: which of several addresses is taken, and whether a name is an address in text form, are inputs.
- SocksServer.ServerCX.ProcessRequest: a version 5 request shorter than ten bytes returns -1 as a length; only that the state stays is modelled.
- Socks.Handoff: verdicts come while the policy is pending, and each query is answered at most once; what the proxy does on its own when a request has failed is in `Socks.SecondReply`.
- SocksServer.ServerCX.View: the fields of a request and the flags of its queries are two records; the replies and queries of a run are kept beside the fields, as ghosts.
- Policy matching, load balancing, user identity, quotas and the command line: no hard state or arithmetic of their own.
