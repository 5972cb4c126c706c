# Netleaf verification

A Dafny model of the parts of Netleaf that hold protocol or algorithmic logic, with proofs of what they promise:

* **HTTP/2** (`src/http/netleaf_http_common.c`): HPACK integers, the Huffman code, its tree and both codecs, the dynamic
  table, header fields and header blocks, frames, streams and the connection, up to the theorems that any sequence of
  responses sent by one side is rebuilt by the other, whatever the splitting of the byte stream across reads
  (`src/http/netleaf_http_tls_linux.c`), and that every answer of a request handler arrives.
* **Route suggestions** (`src/autoroute/netleaf_autoroute.c`): edit distance, path similarity, the route tree and the glob
  matcher.
* **Extensions** (`src/netleaf_module.c`): the version order and the extension registry.
* **Error pages** (`src/errorpage/netleaf_errorpage.c`): the two-pass template renderer.

`dafny verify dfyconfig.toml` checks the whole project.

## How the modules fit together

Each component appears twice. A *specification* gives the meaning on values: `Varint.Encoded`/`Decoded`,
`PrefixCode.Encode`/`Decode`, `DynamicTable.Inserted`, `Hpack.EncodedHeader`/`DecodedHeader`, `H2State.Process`,
`Session.SessionFrames`, `EditDistance.Distance`, `Similarity.RouteSimilarity`, `Trie.Grow`/`Collected`,
`Version.Compare`, `RegistryState.Step`, `Template.Substitute`. The *methods and classes* follow the C code step by step
(arrays, offsets, moving cursors, in-place updates) and are proved to compute exactly that meaning. The main results are
lemmas about the specifications. What the specifications themselves say is tied to descriptions that do not use them:
code words to the canonical code of their lengths, digits to the number they stand for, requests to the last field of each
name, settings to pairs, header bytes to their places, similarity to edits.

| layer | modules |
|---|---|
| shared, integers and bits | `Basics`, `Bits`, `Varint` |
| Huffman | `PrefixCode` (any usable prefix code), `HuffmanTree` (the array-built tree and the decoder), `CodeTree` (completeness), `HuffmanTable` (Appendix B of RFC 7541), `HuffmanCanonical`, `HuffmanEncoder` |
| HPACK | `DynamicTable`, `StaticTable`, `StaticOrder`, `Hpack`, `HpackRoundTrip`, `HpackBlock`, `WiderTable`, `HpackCodec`, `OverRead`, `Representations` |
| frames and streams | `Frames`, `StreamList`, `H2State`, `Fragments`, `Truncation`, `UnseenBytes`, `Bookkeeping`, `Refusals`, `EndToEnd`, `Requests`, `ResponseText`, `SettingsPairs`, `ControlFrames`, `ShortConversations`, `Answers` |
| running code | `Sending`, `Connection`, `Session`, `Wire` |
| routes | `EditDistance`, `PathText`, `Similarity`, `Likeness`, `Glob`, `RoutePaths`, `Trie`, `RouteTrie` |
| extensions and pages | `Version`, `RegistryState`, `Registry`, `Template` |

## Where the code departs from its standards or comments

The model follows the code. Each of these decides the exact form of a theorem.

* The integer reader combines continuation bytes with a bitwise or where section 5.1 of RFC 7541 adds. A written integer is
  read back correctly exactly when it is *safe* (`Varint.Safe`); `Varint.UnsafeExample` gives 128 under a 7-bit prefix.
  The same theorem, with addition instead, holds for all 64-bit integers.
* The bounds check of a string literal adds in 64 bits. A length close to 2^64 wraps and the check passes
  (`OverRead.CheckFailsToHold`). A Huffman literal of that length is refused all the same (`OverRead.LongHuffmanRefused`);
  a plain one is copied from behind the data, and its text depends on what lies there exactly when it neither fills the
  buffer nor meets a NUL before the data end (`OverRead.BeyondIff`). A block does so exactly when `OverRead.OverReadsIff`
  says. An input a peer can send is in `UnseenBytes.MemoryDecides`. A PING request with fewer than eight bytes is answered
  with uninitialised ones. The model takes the bytes behind as a parameter and keeps every outcome that some bytes give
  (`HpackBlock.BlockReads`, `H2State.Possible`): invariants hold for all of them, and results that name one outcome ask
  for frames that are `H2State.Defined`, as everything the encoder writes is.
* The payload of the CONTINUATION frame that carries END_HEADERS is never appended (`Fragments.SplitIsWhole`,
  `Fragments.LastFragmentLost`). So splitting a block is invisible if and only if leaving out the last fragment changes
  neither the decoding table nor the request (`Truncation.VisibleIff`), for any block. For a block that ends with an
  ordinary field the stream has room for, that means an empty last fragment (`Truncation.VisibleUnlessLastEmpty`).
* The encoder never writes dynamic table size updates and the decoder refuses them, so the two tables may differ after a
  SETTINGS frame. That does no harm as long as no announced size exceeds the peer's own table (`WiderTable.WiderBlock`,
  `Answers.EveryAnswerArrives`); beyond it, a block is understood if and only if every index it uses is still held
  (`WiderTable.NarrowerBlock`).
* When only one byte of room is left, the encoder drops a two-byte name index and still reports success
  (`OverRead.DroppedIndex`); `HpackRoundTrip.Faithful` therefore asks for two bytes of room in that case.
* CLOSED is not absorbing: DATA or HEADERS with END_STREAM overwrite it. Nothing is claimed about section 5.1 of RFC 7540.
* Send windows are updated but never consulted. Nothing is claimed about flow control on sending.
* A SETTINGS table size of 2^31 or more turns negative in the signed limit and empties the table (`H2State.AsLimit`).
* The glob matcher takes the longest run for every star and never backtracks. It is sound for every pattern, and complete
  exactly for patterns whose stars end their segment (`Glob.CompleteExactlyWhen`).

## Model

| member | source | states |
|---|---|---|
| Varint.WrittenIsRead | src/http/netleaf_http_common.c:525-582 | For every prefix width 1 to 7 and every 64-bit value, reading what was written, with anything behind it, consumes exactly the written bytes and gives the value itself with additive reading, or its or-combination with the code's reader |
| Varint.SafeIffReadBack | src/http/netleaf_http_common.c:525-555 | The or-reader gives the value back if and only if it is safe (below 2^N-1, or its excess has N low zero bits); otherwise it never exceeds it |
| Varint.UnsafeExample | src/http/netleaf_http_common.c:541 | 128 written with a 7-bit prefix is read as 127 |
| Varint.EncodedMeans | src/http/netleaf_http_common.c:557-582 | A written integer stands in its prefix, or fills it with ones and is followed by groups of seven bits, the least significant first, with the top bit on all but the last (section 5.1 of RFC 7541); the flag bits above the prefix stay |
| Varint.ReadVarint | src/http/netleaf_http_common.c:525-555 | The reading loop computes the specified reading, including its refusals of truncated and over-long input |
| Varint.Write | src/http/netleaf_http_common.c:557-582 | Writes exactly the encoding if it fits and reports 0 if not, touching nothing outside its room |
| PrefixCode.SpellsUnique | src/http/netleaf_http_common.c:397-431 | Under any usable code, a bit string (with all-ones padding of at most 7 bits) spells at most one byte string |
| PrefixCode.DecodeInvertsEncode | src/http/netleaf_http_common.c:366-431 | Decoding accepts bytes b as s if and only if b is the encoding of s: both codecs are two-sided inverses, for any usable prefix code |
| PrefixCode.AcceptedShape | src/http/netleaf_http_common.c:397-431 | Accepted input is code words followed by 0 to 7 one-bits, and EOS occurs nowhere in it (section 5.2 of RFC 7541) |
| PrefixCode.UnfinishedBits | src/http/netleaf_http_common.c:426-427 | Bits left inside the tree are acceptable exactly when they are at most 7 ones and nothing was left to spell |
| HuffmanTree.DecodingTree.Attach | src/http/netleaf_http_common.c:344-357 | A new node takes the next free index, is linked under its parent, and every other node keeps its contents |
| HuffmanTree.DecodingTree.WalkBit | src/http/netleaf_http_common.c:341-360 | One bit of a code word moves to the node of the longer prefix, creating it only if it is missing |
| HuffmanTree.DecodingTree.Insert | src/http/netleaf_http_common.c:337-361 | Inserting a code word keeps the tree linked, without overwriting a node or running through a leaf |
| HuffmanTree.DecodingTree.Build | src/http/netleaf_http_common.c:329-363 | The finished array is exactly the tree of all prefixes, one node each |
| HuffmanTree.DecodingTree.Decode | src/http/netleaf_http_common.c:397-431 | Success means the output is the unique decoding and fits; failure means no decoding exists that fits |
| HuffmanTree.DecodingTree.TakeBit | src/http/netleaf_http_common.c:405-424 | Each input bit moves to the node of the bits read since the last symbol, emitting a symbol at a leaf; stopping early means the input is refused |
| CodeTree.TreeProves | src/http/netleaf_http_common.c:254-322 | A binary tree that carries every code word proves the code prefix free and complete, with 2n-1 prefixes for n words |
| CodeTree.NoMissingChild | src/http/netleaf_http_common.c:407-409 | For a complete code, every internal node of the built tree has both children, so the decoder's missing-child branch is unreachable |
| CodeTree.PathEndsAtSymbol | src/http/netleaf_http_common.c:337-361 | Every symbol's code word is the path of a leaf that carries that symbol |
| HuffmanTable.TableIsGood | src/http/netleaf_http_common.c:254-363 | The 257-entry table is prefix free and complete, EOS is all ones and over 7 bits, and building it uses exactly 513 of the 514 nodes |
| HuffmanCanonical.CodeByRank | src/http/netleaf_http_common.c:254-322 | The code word of every symbol is determined by which symbols have how many bits: code words of one length count off from the canonical start in the order of the symbols |
| HuffmanCanonical.PlaceOf | src/http/netleaf_http_common.c:254-322 | Every one of the 257 symbols is listed, under the number of bits its code word has |
| HuffmanCanonical.CanonicalOrder | src/http/netleaf_http_common.c:254-322 | Of any two symbols, the one with fewer bits, or with as many and the smaller number, has the smaller code word, and all extensions of it are smaller too |
| HuffmanEncoder.EncodeBytes | src/http/netleaf_http_common.c:366-393 | Succeeds exactly when the padded encoding fits, and then writes exactly it |
| DynamicTable.TableIsWindowOfHistory | src/http/netleaf_http_common.c:438-482 | After any insertions the table is the longest newest-first prefix of the insertion history whose size fits the limit |
| DynamicTable.WindowUnique | src/http/netleaf_http_common.c:438-482 | That window is unique: no other table meets the description |
| DynamicTable.InsertMatchesStandard | src/http/netleaf_http_common.c:443-482 | Inserting and then evicting equals the evict-then-insert order of section 4.4 of RFC 7541, oversize entries included |
| DynamicTable.HpackContext.Evict | src/http/netleaf_http_common.c:443-451 | Leaves the newest entries that fit and a size field equal to their sum |
| DynamicTable.HpackContext.Insert | src/http/netleaf_http_common.c:453-482 | The growing, shifting array ends up as the specified insertion, with the invariants kept |
| DynamicTable.HpackContext.FindDynamic | src/http/netleaf_http_common.c:484-491 | Index 62 is the newest entry; found exactly when the index is within the table |
| DynamicTable.HpackContext.SetMaxSize | src/http/netleaf_http_common.c:493-499 | A new limit evicts exactly what no longer fits |
| DynamicTable.InsertRun | src/http/netleaf_http_common.c:438-499 | Over any run of insertions under any limit, from an empty table: the table is the longest newest-first part of what was inserted that fits, the size field is the sum of its entries, and count <= capacity <= limit/32 + 1 |
| HpackRoundTrip.StringRoundTrip | src/http/netleaf_http_common.c:501-523 | A written string literal is read back whole, consuming exactly its bytes, if its length is safe; otherwise the reader stops short of it |
| HpackRoundTrip.IndexedRoundTrip | src/http/netleaf_http_common.c:614-754 | An indexed field reads back as the pair it stands for if and only if the index is safe |
| HpackRoundTrip.LiteralRoundTrip | src/http/netleaf_http_common.c:614-754 | A literal field reads back, with the same table change, if and only if the length of its value literal is safe |
| HpackRoundTrip.LockStep | src/http/netleaf_http_common.c:614-754 | From equal tables, decoding an encoded header gives exactly that pair, consumes exactly its bytes and leaves equal tables, if and only if the header is faithful (safe integers, and room for a two-byte index) |
| HpackRoundTrip.SmallIsFaithful | src/http/netleaf_http_common.c:691-754 | Values up to 127 bytes with at most 66 table entries and two bytes of room are always faithful |
| HpackRoundTrip.KeptAfter | src/http/netleaf_http_common.c:691-754 | Encoding keeps every table entry within the clipping limits of the decoder |
| StaticOrder.StaticIsOrdered | src/http/netleaf_http_common.c:25-87 | The static table is in order by name (with a colon behind it) and then by value, so no two entries could change places |
| Representations.AnyFieldIsRead | src/http/netleaf_http_common.c:614-672 | Every representation that section 6 of RFC 7541 allows, from any peer (indexed, three literal forms, name by index or in full, each text plain or Huffman coded), with safe integers, is read as what it stands for; only incremental fields enter the table, and an index that stands for nothing is refused |
| Representations.AnyTextIsRead | src/http/netleaf_http_common.c:501-523 | Any text, in either form, is read up to its first NUL and clipped to the buffer; only Huffman text of more than 1023 characters is refused |
| Representations.SizeUpdateRefused | src/http/netleaf_http_common.c:669-671 | A dynamic table size update is refused |
| Representations.ShorterFormIsWritten | src/http/netleaf_http_common.c:674-689 | A text is written Huffman coded exactly when that is shorter and fits the buffer |
| Representations.SecondTimeIndexed | src/http/netleaf_http_common.c:691-754 | A field that fits the table is written as an index the second time, and as the single byte 0xBE right after it was entered |
| Representations.StaticNameNotSpelled | src/http/netleaf_http_common.c:691-754 | A field that fits the table never spells out a name of the static table |
| HpackBlock.BlockRoundTrip | src/http/netleaf_http_common.c:614-754 | For every list of faithful headers, decoding the whole block gives the same list and equal tables, and reads no byte behind the block |
| HpackBlock.BlockRoundTripIff | src/http/netleaf_http_common.c:614-754 | A block whose fields all fit comes back as the same fields if and only if every one of them is faithful |
| HpackBlock.UnfaithfulDiffers | src/http/netleaf_http_common.c:614-754 | A field that is not faithful comes back as another one, or not at all |
| OverRead.CheckFailsToHold | src/http/netleaf_http_common.c:506 | For 64-bit lengths, the check lets a length through that does not fit exactly when it is at least 2^64 minus the bytes consumed |
| OverRead.LongHuffmanRefused | src/http/netleaf_http_common.c:397-431 | Huffman text of 3840 bytes or more, and so any whose length wraps, is refused whatever its bytes: a symbol has at most 30 bits and the buffer takes 1023 |
| OverRead.KnownString | src/http/netleaf_http_common.c:501-523 | What is read from the data alone is what is read with any bytes behind them; where those matter, the text is the front part of what is left of the data and of them |
| OverRead.BeyondIff | src/http/netleaf_http_common.c:501-523 | Two different memories give two different readings if and only if a plain literal reaches the check with a length that wraps, less is left than the buffer takes, and what is left holds no NUL |
| OverRead.HeaderDepends | src/http/netleaf_http_common.c:614-672 | A field marked as depending on memory does: two memories give two different fields |
| OverRead.KnownHeader | src/http/netleaf_http_common.c:614-672 | Any other field, or refusal, is the same for every memory; a field that depends on memory is always read, and enters the table only in its incremental form |
| OverRead.OverReadsIff | src/http/netleaf_http_common.c:1013-1041 | The fields of a block differ between two memories if and only if decoding comes to a field that depends on memory |
| OverRead.BlockIsRead | src/http/netleaf_http_common.c:1013-1041 | Otherwise the specified fields and table are the only possible ones |
| OverRead.BlockKeeps | src/http/netleaf_http_common.c:1013-1041 | Whatever memory holds, decoding a block keeps the table's limit, its size within the limit, and every entry within its buffers |
| OverRead.DroppedIndex | src/http/netleaf_http_common.c:730-731 | Without the dropped name index, and whatever follows or lies behind, a decoder runs past the field's byte, or by a wrapped length finds an empty name and leaves its table alone: never the field that was meant |
| OverRead.LockStepAnyMemory | src/http/netleaf_http_common.c:614-754 | The lock step of encoder and decoder, if and only if the header is faithful, for every memory |
| HpackCodec.FindStatic | src/http/netleaf_http_common.c:598-612 | Gives the first full match, else minus the first name match, else 0 |
| HpackCodec.LiteralString | src/http/netleaf_http_common.c:674-689 | Writes the Huffman form exactly when it is shorter, and reports 0 if the chosen form does not fit |
| HpackCodec.EncodeHeader | src/http/netleaf_http_common.c:691-754 | Writes the specified bytes, changes the table as specified, and leaves the table alone when it returns 0 |
| HpackCodec.WriteName | src/http/netleaf_http_common.c:726-743 | Writes the name index or the literal name; an index that does not fit is silently dropped |
| HpackCodec.ReadStringLiteral | src/http/netleaf_http_common.c:501-523 | Agrees with the specified string reading for the bytes that lie behind the data, wrapping check, plain and Huffman text and refusals included |
| HpackCodec.DecodeHeader | src/http/netleaf_http_common.c:614-672 | Agrees with the specified decoding for the bytes that lie behind the block: field, bytes consumed and table, or a refusal that leaves the table alone |
| Frames.HeaderRoundTrip | src/http/netleaf_http_common.c:760-777 | A written frame header reads back the same, but for the reserved top bit of the stream id |
| Frames.HeaderLayout | src/http/netleaf_http_common.c:760-770 | The nine header bytes, each by its place: length, type, flags and stream id, most significant bytes first |
| Frames.WriteHeader | src/http/netleaf_http_common.c:760-770 | Writes the nine bytes of section 4.1 of RFC 7540 and nothing else |
| Frames.ReadHeader | src/http/netleaf_http_common.c:772-777 | Computes the parsed header |
| Sending.SendWindowUpdate | src/http/netleaf_http_common.c:848-862 | Writes exactly one WINDOW_UPDATE frame with that increment |
| Sending.EncodeFields | src/http/netleaf_http_common.c:908-930 | Status and lowercased headers are encoded one after the other; those that do not fit are skipped |
| Sending.SendBody | src/http/netleaf_http_common.c:961-988 | Writes the body as DATA frames of at most the peer's frame size, END_STREAM on the last only |
| Sending.SendHeaders | src/http/netleaf_http_common.c:900-993 | Writes the frames of the response and moves the stream state on; after a failed write, a prefix of them |
| Connection.ApplyHeaderBlock | src/http/netleaf_http_common.c:1013-1041 | Decodes until the first refusal and stores each field in order; fields and table are those that some bytes behind the block give, and no field consumes nothing |
| Connection.H2Connection.FindOrCreateStream | src/http/netleaf_http_common.c:995-1011 | Gives the first stream with the id, or a new one put in front |
| Connection.H2Connection.OnHeadersFrame | src/http/netleaf_http_common.c:1090-1131 | Agrees with the specified effect of HEADERS on the connection and the output, with the fields that some bytes behind a completed block give; a refused write touches stream states only |
| Connection.H2Connection.OnContinuationFrame | src/http/netleaf_http_common.c:1133-1177 | Agrees with the specified effect of CONTINUATION, with the fields that some bytes behind a completed block give; a refused write touches stream states only |
| Connection.H2Connection.OnDataFrame | src/http/netleaf_http_common.c:1203-1222 | Appends the payload, returns its length as credit to the stream and to the connection |
| Connection.H2Connection.OnSettingsFrame | src/http/netleaf_http_common.c:1054-1088 | Applies every setting in order, limits the encoding table, and acknowledges |
| Connection.H2Connection.OnPingFrame | src/http/netleaf_http_common.c:1239-1249 | Echoes the eight bytes behind the header, whatever its length field says, or eight uninitialised ones when fewer are there |
| Connection.H2Connection.ProcessFrame | src/http/netleaf_http_common.c:1043-1281 | The frame dispatcher refines the transition relation of the connection: state and output are an outcome of the frame for some bytes behind a header block or in a short PING's reply; after a refused write the state is still that outcome's, but for stream states |
| StreamList.FoundAfterStoring | src/http/netleaf_http_common.c:995-1011 | Storing a stream changes the lookup of its own id and of no other |
| StreamList.DistinctAfterStoring | src/http/netleaf_http_common.c:995-1011 | Stream ids stay distinct |
| H2State.ProcessAllConcat | src/http/netleaf_http_common.c:1043-1281 | A run over a concatenation is the run over its parts, states and output composed |
| Requests.MethodFromName | src/http/netleaf_http_common.c:102-111 | Each of the seven methods is read from its name and from no other text |
| Requests.StoredRequest | src/http/netleaf_http_common.c:1013-1041 | For every list of fields: the method is that of the last :method, the path the clipped value of the last :path, each unchanged if there is none; the headers are those there were and the fields that are no pseudo-fields, in order, up to 64 |
| Requests.RequestArrives | src/http/netleaf_http_common.c:1090-1131 | A faithful header block on a fresh stream leaves a request with the method, path and headers that were sent |
| ResponseText.StatusMeans | src/http/netleaf_http_common.c:910-912 | The status text has the value of the status exactly when that has at most seven characters; then it is written in decimal digits, without zeros in front |
| ResponseText.StatusDelivered | src/http/netleaf_http_common.c:910-913 | The first field a peer decodes from a faithful response is :status, with the decimal value of the status |
| ResponseText.LowerMeans | src/http/netleaf_http_common.c:916-926 | Upper-case letters become the lower-case ones, other bytes stay |
| SettingsPairs.SettingsMean | src/http/netleaf_http_common.c:1054-1084 | For every list of identifiers and values, six bytes each, and any shorter tail: each of the six settings is the last value sent for its identifier, or what it was |
| SettingsPairs.PairsBack | src/http/netleaf_http_common.c:1058-1062 | Every payload is such a list but for a tail of fewer than six bytes |
| SettingsPairs.LimitFollowsPairs | src/http/netleaf_http_common.c:1084-1086 | The encoder's limit is the last table size sent, and its table is evicted to it at once |
| SettingsPairs.AsLimitIsCast | src/http/netleaf_http_common.c:493-499 | A table size is cast to a signed 32-bit integer, and acts as zero when that is negative |
| ControlFrames.PingAnswered | src/http/netleaf_http_common.c:1239-1249 | A PING is answered by an acknowledgement with the same eight bytes; an acknowledgement is not answered |
| ControlFrames.GoawaySeen | src/http/netleaf_http_common.c:1270-1277 | GOAWAY drains the connection and records the last stream |
| ControlFrames.ResetSeen | src/http/netleaf_http_common.c:1255-1267 | RST_STREAM closes a stream that exists and drops its body, creates none, and leaves the others alone |
| ControlFrames.SettingsExchanged | src/http/netleaf_http_common.c:779-846 | A peer takes the announced settings for 4096, 0, 100, 65535, 16384 and 16384, acknowledges them, and the acknowledgement is noted |
| ControlFrames.StateAfterExchange | src/http/netleaf_http_common.c:900-1222 | A request answered on a fresh stream closes it if the request ended there or the response has no body, else half of it; a body that ends later leaves the other half closed |
| H2State.DefinedIsFunction | src/http/netleaf_http_common.c:1043-1281 | A frame whose effect does not depend on memory has exactly one possible outcome, the specified one |
| H2State.DefinedRunIsFunction | src/http/netleaf_http_common.c:1043-1281 | If every frame of a run is defined, the only possible state and output are those of the specified run |
| H2State.DefinedRunExists | src/http/netleaf_http_common.c:1043-1281 | And that run is possible |
| Bookkeeping.FrameKeeps | src/http/netleaf_http_common.c:1043-1281 | Every possible outcome of one frame of any kind keeps ids distinct, extends or resets each body, and returns credit exactly for the DATA received |
| Bookkeeping.RunKeeps | src/http/netleaf_http_common.c:1203-1268 | Over every possible run of any interleaving of frames: distinct stream ids, each body is its DATA payloads in order since its last RST_STREAM, and returned credit equals DATA bytes received, per stream and for the connection |
| Bookkeeping.RunKeepsTables | src/http/netleaf_http_common.c:1043-1281 | Over every possible run, over-reading blocks included: the decoding limit never changes, both tables stay within their limits, and every entry within its buffers |
| Bookkeeping.RunKeepsWindows | src/http/netleaf_http_common.c:1224-1237 | Over every possible run: the window of each stream, and of the connection, is what it was and all increments received for it, in 32 bits |
| UnseenBytes.WrappingOutcomes | src/http/netleaf_http_common.c:1090-1131 | A HEADERS frame with a 13-byte block whose name claims 2^64 - 1 bytes: its outcomes are exactly those that store a name of the one byte left and what lies behind |
| UnseenBytes.MemoryDecides | src/http/netleaf_http_common.c:1090-1131 | That frame has more than one outcome, with different stored headers, if and only if the stream has fewer than 64 headers; the decoding table is unchanged in all of them |
| Refusals.PossibleAlike | src/http/netleaf_http_common.c:1043-1281 | Connections that differ in stream states only have the same outcomes for every frame, output included, but for stream states: so a refused write can influence nothing else later |
| Fragments.SplitIsWhole | src/http/netleaf_http_common.c:1090-1177 | HEADERS, any middle CONTINUATION frames and an END_HEADERS CONTINUATION have the state and output of one HEADERS frame with everything but the last fragment, and are defined exactly when that frame is |
| Fragments.SplitIsWholeAnyMemory | src/http/netleaf_http_common.c:1090-1177 | The possible outcomes of the split and of that one frame are the same, over-reading blocks included |
| Fragments.FragmentationInvisible | src/http/netleaf_http_common.c:1090-1177 | With an empty last fragment, any fragmentation of any block equals the whole block in one frame |
| Truncation.TruncatedHeader | src/http/netleaf_http_common.c:614-672 | A faithful field is refused when any of its bytes is missing |
| Truncation.TruncatedBlock | src/http/netleaf_http_common.c:1013-1041 | The front part of a faithful block decodes to a front part of its fields, and to all of them if and only if nothing is missing |
| Truncation.VisibleIff | src/http/netleaf_http_common.c:1090-1177 | Any block, split in any way, for any handler: same specified effect as the whole block in one frame if and only if leaving out the last fragment changes neither the decoding table nor the request; and the split is defined exactly when what arrives before the last fragment does not over-read |
| Truncation.VisibleUnlessLastEmpty | src/http/netleaf_http_common.c:1090-1177 | A faithful block, pseudo-fields included, that ends with an ordinary field and whose ordinary fields fit the request: split in any way, and for any handler, it has the effect of the whole block in one frame if and only if the last fragment is empty |
| Fragments.LastFragmentLost | src/http/netleaf_http_common.c:1151-1156 | A concrete block whose header arrives in one frame and is lost when it comes in the last fragment |
| EndToEnd.ResponseDelivered | src/http/netleaf_http_common.c:900-1222 | The frames of one response, processed by a peer with an equal table, create exactly that stream, equal tables again, and only window credit as output; every frame is defined |
| EndToEnd.EveryResponseDelivered | src/http/netleaf_http_common.c:900-1222 | The same for every sequence of responses on fresh streams |
| WiderTable.WiderDecodes | src/http/netleaf_http_common.c:614-672 | A field that can be decoded with some table is decoded alike with any table that extends it, and the extension stays one |
| WiderTable.WiderBlock | src/http/netleaf_http_common.c:614-754 | A faithful block comes back whole at a decoder whose table extends the encoder's, and goes on extending it whatever either side evicts |
| WiderTable.NarrowerHeader | src/http/netleaf_http_common.c:614-754 | With fewer entries than the encoder's, a decoder understands a faithful field if and only if the index it uses, for the field or its name, is held; otherwise it refuses the field |
| WiderTable.NarrowerBlock | src/http/netleaf_http_common.c:614-754 | A faithful block comes back whole at such a decoder if and only if every index is held when it is used, and then the encoder's table still extends the decoder's |
| Answers.RunServes | src/http/netleaf_http_common.c:1043-1281 | For every possible run with a handler there is a record of its answers, each to the request as received so far, and of the table sizes put in force |
| Answers.ResponseSeen | src/http/netleaf_http_common.c:900-1222 | A response to a stream of which the peer knows at most a window is rebuilt there, and changes no other stream but for windows |
| Answers.EveryAnswerArrives | src/http/netleaf_http_common.c:900-1281 | For every handler and every possible run over any frames, over-reading blocks included, whose answers survive the decoder and go to different streams: a peer that processes everything written in return, answers mixed with credit, acknowledgements and PING replies, holds every handler answer whole on its stream, with no other stream changed but for windows, across table size changes up to its own table |
| EndToEnd.RebuiltHolds | src/http/netleaf_http_common.c:1013-1041 | What is rebuilt is the lowercased headers in order (no name starting with a colon) and the body byte for byte |
| EndToEnd.OnlyLastEndsStream | src/http/netleaf_http_common.c:932-989 | A response is HEADERS then DATA on its stream, each frame whole and within 16384 bytes, each DATA frame within the peer's limit, and END_STREAM is set on the last frame only |
| EndToEnd.BodySegmented | src/http/netleaf_http_common.c:954-988 | The DATA payloads concatenate to the body and none exceeds the peer's frame limit |
| Session.DrainFrames | src/http/netleaf_http_tls_linux.c:321-332 | Hands over exactly the leading frames of the buffered bytes and stops at a partial or oversize frame |
| Session.Absorb | src/http/netleaf_http_tls_linux.c:309-337 | One read's bytes keep: frames handed over so far, followed by the greedy parse of what is held and what is still to come, are the frames of the whole stream |
| Session.ReadLoop | src/http/netleaf_http_tls_linux.c:294-341 | For arbitrary read sizes, the frames handed over are those of one greedy parse after the preface, whether or not writing works, the state is that of a possible run over them, and the buffer never exceeds 32768 bytes |
| Session.RunSession | src/http/netleaf_http_tls_linux.c:281-346 | The frames handed over depend on the byte stream alone; the state is that of a possible run over them (but for stream states if a write was refused), and the output that run's behind the settings if none was; when every frame is defined it is exactly the specified run, whatever the splitting |
| Session.FirstFrameStays | src/http/netleaf_http_tls_linux.c:321-332 | A complete first frame is parsed the same whatever follows |
| Wire.ParsedFrames | src/http/netleaf_http_tls_linux.c:321-332 | Parsing the concatenation of frames gives back those frames |
| Wire.DeliveredOverAnyChunks | src/http/netleaf_http_common.c:900-1222 | Responses sent by a fresh connection as one byte stream behind the preface are all rebuilt in every possible run of the receiving session, and all their frames are defined |
| Wire.SessionAnswers | src/http/netleaf_http_tls_linux.c:281-346 | The same for a whole session over any byte stream, the settings it starts with included |
| Wire.SmallestRequest | src/http/netleaf_http_tls_linux.c:309-332 | The bytes of the preface (section 3.5 of RFC 7540) and of a POST to the root, as they stand on the wire, leave exactly that request on stream 1 |
| ShortConversations.CostSuffices | src/http/netleaf_http_common.c:691-754 | With room for name and value lengths plus 8, encoding never fails and stays within that cost |
| ShortConversations.ShortBlock | src/http/netleaf_http_common.c:908-930 | A block of fields with values up to 127 bytes whose cost fits, and which keeps the table at 66 entries or fewer, is encoded whole and survives the reader |
| ShortConversations.ShortConversationsAreDelivered | src/http/netleaf_http_common.c:900-1222 | From a fresh connection, every conversation of at most 67 fields in all, with values up to 127 bytes and blocks within one frame, is delivered whole; a condition that can be counted before sending |
| EditDistance.Levenshtein | src/autoroute/netleaf_autoroute.c:125-179 | The two swapped rows compute the distance, for all strings |
| EditDistance.FillRow | src/autoroute/netleaf_autoroute.c:157-165 | From the row of i-1 characters, the inner loop computes the row of i characters |
| EditDistance.DistanceIsMinimum | src/autoroute/netleaf_autoroute.c:125-179 | The distance is the least number of single-character insertions, deletions and replacements over all edit scripts: some script has that length, none is shorter |
| EditDistance.Symmetric | src/autoroute/netleaf_autoroute.c:125-179 | The distance is symmetric |
| EditDistance.ZeroOnlyOnEqual | src/autoroute/netleaf_autoroute.c:125-179 | It is zero exactly on equal strings |
| EditDistance.Triangle | src/autoroute/netleaf_autoroute.c:125-179 | It satisfies the triangle inequality |
| EditDistance.Bounds | src/autoroute/netleaf_autoroute.c:125-179 | It lies between the length difference and the longer length |
| Similarity.SimilarityIsAScore | src/autoroute/netleaf_autoroute.c:185-289 | Over the reals, similarity is symmetric, lies in [0, 1], is 1 exactly on equal paths and at most 0.95 on others |
| Likeness.NearerScoresHigher | src/autoroute/netleaf_autoroute.c:185-289 | Of two paths that differ in one segment, the one whose segment needs the smaller part of it edited has the higher score |
| Likeness.NearerRouteWins | src/autoroute/netleaf_autoroute.c:498-514 | Of two such routes, the farther one is never the best |
| Likeness.PrefixScore | src/autoroute/netleaf_autoroute.c:277-284 | A path scores three quarters of the part it is of a longer one that starts with its segments |
| Likeness.UnlikeScore | src/autoroute/netleaf_autoroute.c:277-284 | Paths whose segments have nothing in common score 0.2 if they have equally many, and 0 otherwise |
| Likeness.OneUnlikeScore | src/autoroute/netleaf_autoroute.c:277-284 | With one of n segments wholly unlike, the others count for 0.6 |
| Similarity.SplitInPlace | src/autoroute/netleaf_autoroute.c:213-250 | Overwriting at most 63 slashes by NULs leaves at every recorded start exactly one segment of the clipped path |
| Similarity.PrefixScore | src/autoroute/netleaf_autoroute.c:258-275 | The early-exit loop gives the bonus exactly when all pairs of non-empty segments agree |
| Similarity.RouteScore | src/autoroute/netleaf_autoroute.c:197-289 | Computes the similarity |
| Similarity.FindBestRoute | src/autoroute/netleaf_autoroute.c:498-514 | Gives the first route of maximal score among those that qualify, and none only if none qualifies |
| Similarity.ExactRouteWins | src/autoroute/netleaf_autoroute.c:498-514 | If the target itself is among the routes, the best route is the target |
| Similarity.ExactRouteIsFound | src/autoroute/netleaf_autoroute.c:498-514 | With a minimum of at most 1, a search that finds nothing means the target is not among the routes |
| Glob.RouteMatches | src/autoroute/netleaf_autoroute.c:516-544 | The two-cursor loop accepts only paths that match under backtracking semantics, and all of them when stars end their segments |
| Glob.Sound | src/autoroute/netleaf_autoroute.c:516-544 | Whatever the matcher accepts matches under backtracking semantics, for every pattern and path |
| Glob.CompleteExactlyWhen | src/autoroute/netleaf_autoroute.c:516-544 | The matcher agrees with backtracking semantics on every path if and only if every star is followed by a star, a slash or the end |
| Glob.LongestRunWorks | src/autoroute/netleaf_autoroute.c:524-532 | Where a star may take some run, it may as well take the longest one, if stars end their segments |
| RoutePaths.PartsOfJoin | src/autoroute/netleaf_autoroute.c:326-396 | Splitting a collected route on slashes gives back its segments |
| RoutePaths.PartsAtSlash | src/autoroute/netleaf_autoroute.c:326-344 | For every text, each slash separates, and what is between two of them is one segment or none |
| Trie.GrowIsTree | src/autoroute/netleaf_autoroute.c:326-374 | Adding a route keeps the tree well formed (distinct child segments, at most 32 children) and adds exactly that route |
| Trie.RoomToGrow | src/autoroute/netleaf_autoroute.c:357-363 | If at most 32 segments follow any prefix of the planned routes, no node ever needs a 33rd child |
| Trie.PreorderLists | src/autoroute/netleaf_autoroute.c:376-407 | Depth-first traversal lists every route below a node exactly once |
| Trie.CollectedAreTheAdded | src/autoroute/netleaf_autoroute.c:326-407 | After adding any manageable list of paths, the collected routes are free of duplicates, all of them were added, there are as many as added routes other than the root up to 256, and within that limit none is missing |
| RouteTrie.RouteMatcher.AddSegmentToTree | src/autoroute/netleaf_autoroute.c:326-374 | Splitting in place, walking and linking new nodes turns the linked tree into the specified one |
| RouteTrie.RouteMatcher.AddRoutes | src/autoroute/netleaf_autoroute.c:418-431 | Adding a list adds its paths in order and counts them |
| RouteTrie.RouteMatcher.CollectAllRoutes | src/autoroute/netleaf_autoroute.c:376-407 | Appends the texts of the subtree's routes in depth-first order until the output is full |
| RouteTrie.RouteMatcher.FindSimilar | src/autoroute/netleaf_autoroute.c:440-462 | Gives the most similar collected route; a path that is itself a route finds itself |
| Version.VersionCompare | src/netleaf_module.c:292-309 | The cursor loop computes the order, for all strings |
| Version.ReadVersionSegment | src/netleaf_module.c:279-290 | Gives the digits of the segment without leading zeros, and moves on to the next segment |
| Version.TotalPreorder | src/netleaf_module.c:292-309 | Reflexive, antisymmetric in sign, total and transitive, on all strings |
| Version.ComparesNumbers | src/netleaf_module.c:279-309 | On dotted digit strings of any length, the order is that of lists of unbounded naturals padded with zeros |
| Version.LeadingZeroIgnored | src/netleaf_module.c:285 | A zero in front of any string changes nothing |
| Version.TrailingZeroIgnored | src/netleaf_module.c:292-309 | A trailing ".0" changes nothing, on any string |
| RegistryState.RunKeeps | src/netleaf_module.c:531-599 | Over every run of register, unregister, shut-down and retain: at most 64 entries, distinct ids, distinct positive values below the counter |
| RegistryState.NeverReused | src/netleaf_module.c:264-274 | A value once seen denotes the same extension at every later time |
| RegistryState.LookupsInvert | src/netleaf_module.c:620-631 | Value-by-id and id-by-value are inverse to each other |
| RegistryState.RegisterEffect | src/netleaf_module.c:531-574 | Success means the extension can be found, with a value unused before; a refusal changes nothing; other lookups stay |
| RegistryState.RegisterCodeMeans | src/netleaf_module.c:531-541 | Registration succeeds for a known id, and else exactly if there is room and every required id is some entry's; otherwise the code says which of the two is missing |
| RegistryState.RegisterAdds | src/netleaf_module.c:543-574 | A new registration adds one entry behind the others, named as given or else by its id |
| RegistryState.UnregisterEffect | src/netleaf_module.c:576-599 | Removes that extension's lookup and no other |
| RegistryState.HandlesConserved | src/netleaf_module.c:246-262 | Over every run, each retained library handle is held by one slot or was closed once, except handles given again to the slot that held them |
| Registry.ExtensionRegistry.FindIndex | src/netleaf_module.c:225-232 | Gives the first slot with the id, or the count |
| Registry.ExtensionRegistry.RegisterExtension | src/netleaf_module.c:531-574 | All five arrays stay aligned, and the new state and code are the specified ones |
| Registry.ExtensionRegistry.UnregisterExtension | src/netleaf_module.c:576-599 | Shifting keeps all five arrays aligned, and removes exactly that entry |
| Registry.ExtensionRegistry.ForceShutdownAll | src/netleaf_module.c:1012-1026 | Closes every held handle, empties every slot and keeps the value counter |
| Registry.ExtensionRegistry.RetainHandle | src/netleaf_module.c:246-262 | Replaces and closes the slot's previous handle, or closes the new one if there is no slot |
| Registry.ExtensionRegistry.GetIdByValue | src/netleaf_module.c:626-631 | The scan computes the id of the first entry with that value |
| Template.TotalLength | src/errorpage/netleaf_errorpage.c:341-366 | The first pass computes the exact length of the result |
| Template.Fill | src/errorpage/netleaf_errorpage.c:373-410 | The second pass writes exactly the recursive substitution and its NUL, and neither of its clamps ever acts |
| Template.SubstituteVariables | src/errorpage/netleaf_errorpage.c:326-411 | The returned text is the rendered template for a missing template, no variables, and the general case |
| Template.SourceOfParse | src/errorpage/netleaf_errorpage.c:341-366 | Reading a template as literals and placeholders loses nothing, for every text |
| Template.SubstituteIsMeaning | src/errorpage/netleaf_errorpage.c:373-410 | Substitution replaces each placeholder once and never looks at inserted values |
| Template.LookupMeans | src/errorpage/netleaf_errorpage.c:351-357 | A placeholder stands for the value of the first variable of its name, and for nothing if there is none |
| Template.PlainTemplateRenders | src/errorpage/netleaf_errorpage.c:326-411 | A template written from plain pieces (no two braces in a row in its text, no < in its names) renders to what its pieces mean |

## Left out

- Sockets, TLS handshakes, threads, accept loops and the connection mutex: I/O. The TLS channel is a byte stream delivered in arbitrary non-empty pieces, the frame writer a log that may refuse a frame.
- Failing memory allocation: every allocation is taken to succeed.
- Strings with NUL inside: C strings end there, so paths and routes are assumed to have none; HPACK text read from the wire is cut at its first NUL, as the code does.
- Connection.H2Connection.ProcessFrame: after a refused write, does not say which of the remaining frames were written nor what the states of streams are; that differs by frame kind, and the channel is lost.
- What lies behind a header block: any bytes, possibly others for each field. The copying itself is taken to go on; the process could also be stopped by the memory system.
- The linked list of streams is a list of records in the connection object: aliasing through stream pointers is not captured.
- PUSH_PROMISE: always ignored, since push is disabled when the connection is initialised. PRIORITY is ignored as well.
- RST_STREAM and GOAWAY as sent by this side: single writes with no further effect.
- RouteTrie.RouteMatcher.AddSegmentToTree: does not model segments of 128 characters and more, which are stored clipped and then never found again, nor a 33rd child, after which the code goes on with a freed node.
- Trie.CollectedAreTheAdded: route texts of 512 characters and more are clipped when collected; the traversal itself is proved with clipping, this lemma without.
- Similarity: floating-point rounding; scores are real numbers.
- Sorting in route suggestions, and the global matcher: library calls.
- Glob.RouteMatches: missing (null) arguments, which the code answers with no match.
- Registry.ExtensionRegistry.RegisterExtension: the value counter does not wrap, so at most 2^31 - 1 registrations are meant; platform strings are not parsed.
- Plugin loading and reloading, module dependency lists, capability queries: dynamic libraries and shared pointers.
- Error pages, escaping and file handling around the template renderer.
- HTTP/1 parsing, encoding conversion, base64 and SHA-1, the language registry, link aggregation, QUIC, MQTT: not part of this model.
