# A Dafny model of rocksfs

rocksfs is a distributed metadata file system in C++ that ships with its own copies of xxHash and cJSON. This
project models the parts of it whose correctness is an argument over a whole run, a whole input or a whole data
structure, and proves those arguments with Dafny 4.11. `dafny verify dfyconfig.toml` checks everything.

| files | subject |
|---|---|
| `Xxh3Spec`, `Xxh3Stream`, `Xxh3Script`, `Mult128`, `Xxh3Scalar`, `Xxh3Empty` | XXH3: the streaming state machine against the one-shot hash |
| `Xxh3Layout`, `Xxh3Laws`, `Xxh3Words`, `Xxh3Known` | what the one-shot hash is: which bytes of the secret meet which bytes of the input, laws of the primitives, and known answers |
| `XxhClassic`, `XxhLanes`, `XxhKnown` | XXH32 and XXH64: the same |
| `CJsonString`, `CJsonLiteral`, `CJsonUtf8`, `CJsonNumber`, `CJsonDouble`, `CJsonTree`, `CJsonParser`, `CJsonPrinter` | cJSON: escapes, the two-pass string parser, numbers, parser and printer |
| `CJsonGrammar`, `CJsonStringGrammar`, `CJsonAccept`, `CJsonSound`, `CJsonRoundTrip`, `CJsonSample`, `CJsonReprint`, `CJsonCodec` | JSON texts and the trees they denote, by RFC 8259 and apart from cJSON; what the parser accepts, what the printer writes, and their round trips |
| `CJsonList` | cJSON's child lists, whose first item stores the last |
| `RwLock` | the reader/writer lock as a state machine |
| `LruSpec`, `LruHits`, `LruCache`, `PathResolve` | the LRU cache, the directory-entry cache on it, and path resolution |
| `OpenFileMap`, `Bitmap` | file descriptors and slot allocation |
| `JumpHash`, `JumpBalance`, `Regions` | placement: jump consistent hashing, region splitting and lookup |
| `ChecksumLine`, `ChecksumGrammar` | the checksum lines of xxhsum |
| `Common` | optional values, machine sizes, counting, bytes |

How to read it. Code that changes state is a class or a method with loops, proved against a function or a relation
on values; the main results are about those values. Where the arithmetic of a hash plays no part in an argument it
is a value (`Kernel`, `Jumper`, `Scanner`, `Floating`), so the result holds for every such arithmetic, and a separate module
supplies the library's own. Input, clocks and the network are parameters: files are chunk sequences, and the
metadata servers are a fixed name binding that may turn calls away.

What the code computes is said a second time, apart from the functions that the code is proved against: by a grammar
with its own bytes, by relations over whole runs, by inverses, or by known answers. Those lemmas are named `…Exactly`
where they are an if-and-only-if.

Where the code does not do what one would hope, the code is modelled as it is and the exact condition is proved:

- After a reset with a secret and seed 0, the 128-bit digest of an input of at most 240 bytes is the one with the
  secret alone; every other digest is the one-shot hash (`Xxh3Stream.State.Digest128`, `Xxh3Script.Digest128Exactly`).
  On the empty input the two differ for a secret of zero bytes, and agree exactly when two differences of words of the
  secret are those of the default secret (`Xxh3Empty.ZeroSecretDiffers`, `Xxh3Empty.EmptyDigestExactly`).
- cJSON_Parse reads every JSON text of RFC 8259 that is nested at most 1000 deep, as the tree that it denotes
  (`CJsonAccept.ParsesJson`), and more: any byte up to 32 is a blank, control bytes may stand in strings, an escape of bad
  digits is a NUL, a number is what strtod reads of a run of number bytes, and what follows the value is not looked at
  (`CJsonSound.ParsesOnlyJson`, `CJsonStringGrammar.LiteralExactly`, `CJsonNumber.NumberExactly`).
- A tree nested more than 1000 deep prints but does not parse; of any other tree, strings come back up to their first
  NUL, doubles as what their text reads, infinities and NaNs as null (`CJsonRoundTrip.RoundTrip`). The tree itself comes
  back exactly when it holds no NUL and each double is read back, and its text no longer changes exactly when no double
  becomes infinite (`CJsonReprint.Reprint`). One does: the largest double is printed to fifteen digits, which read as
  an infinity, and an infinity passes the test for closeness (`CJsonReprint.LargestDouble`).
- An escape of bad digits reads as NUL and takes the bytes where the digits should be, even the first bytes of a
  character. Well-formed UTF-8 gives a well-formed string exactly when no escape ends inside a character
  (`CJsonUtf8.LiteralStaysWellFormed`, `CJsonUtf8.CutCharacter`); valid escapes never do (`CJsonUtf8.ValidLiteral`).
- Appending to a non-empty child list leaves the new item's own next link alone, so the list is the old one and
  that item exactly when the item is linked to nothing; the same for inserting behind the end (`CJsonList.Append`,
  `CJsonList.Insert`).
- Giving back a bit behind the last slot of a bitmap is not refused, and a later call hands that bit out
  (`Bitmap.Map.PutBack`, `Bitmap.GetPadding`).
- `dup2` onto the descriptor that the counter hands out next makes the next `add` return a descriptor in use and
  lose its file; no other call does (`OpenFileMap.Kept`, `OpenFileMap.CollisionExactly`, `OpenFileMap.CollidingRun`).
- A region's halving point is computed from its end alone, so only a region that starts in its lower half is cut in
  two (`Regions.SplitExactly`, `Regions.SplitNonEmptyExactly`, `Regions.UpperHalvesDoNotSplit`). In a run from any
  number of servers the regions stay a partition exactly when only such regions are split
  (`Regions.PartitionThroughout`); of the servers' first regions only the first one is such a region
  (`Regions.FirstSplitExactly`, `Regions.DyadicThroughout`).
- The search for an id that belongs to another server ends exactly when there is one, and with one server there is none
  (`Regions.SearchEndsExactly`, `Regions.OneServerNeverSplits`).
- Resolving "/" leaves the caller's depth as it was, since the code assigns the pointer instead of its target; the depth
  is written exactly when the path holds a byte other than a slash (`PathSpec.RootLeavesDepth`, `PathSpec.DepthExactly`).
- A GNU checksum line does not say which algorithm it is, and an XXH3 line reads back as XXH64
  (`ChecksumLine.GnuAlgorithm`).

## Model

| member | source | states |
|---|---|---|
| `Xxh3Script.Run` | thirdparty/xxHash/xxhash.h:5069-5349 | any sequence of the four resets, updates and digests on one state: every digest is the one-shot hash of what was fed since the last effective reset, so the cached custom secret never goes stale |
| `Xxh3Script.HashChunks` | thirdparty/xxHash/xxhash.h:5291-5349 | however the input is cut into chunks, empty ones included, both digests are the one-shot hashes of the whole, for every kernel |
| `Xxh3Script.HashStream` | thirdparty/xxHash/cli/xxhsum.c:128-188 | the same for the scalar kernel of the library |
| `Xxh3Stream.State.Update` | thirdparty/xxHash/xxhash.h:5175-5295 | keeps the invariant that says which stripes are accumulated, when the scrambles ran, and what the end of the buffer still holds |
| `Xxh3Stream.State.Digest64` | thirdparty/xxHash/xxhash.h:5334-5349 | the digest is the one-shot 64-bit hash of everything fed, in every mode |
| `Xxh3Stream.State.Digest128` | thirdparty/xxHash/xxhash.h:5810-5833 | the same for 128 bits, with the one exception written out |
| `Xxh3Script.Digest128Exactly` | thirdparty/xxHash/xxhash.h:5828-5832 | the 128-bit digest is the one-shot hash except after a reset with a secret and seed 0, on short inputs, and there exactly when the short hash does not tell the two secrets apart |
| `Xxh3Empty.EmptyDigestExactly` | thirdparty/xxHash/xxhash.h:5502-5516 | for the library's hash of the empty input, and every secret: the digest is the one-shot hash exactly when the secret's words at 64 and 72, and at 80 and 88, differ as those of the default secret do |
| `Xxh3Empty.ZeroSecretDiffers` | thirdparty/xxHash/xxhash.h:5828-5832 | a secret of zero bytes, on which the digest of the empty input is not the one-shot hash |
| `Xxh3Empty.AvalancheInjective` | thirdparty/xxHash/xxhash.h:2655-2663 | the avalanche maps no two words to one: each shift and each multiplication can be undone |
| `Xxh3Stream.State.Reset` | thirdparty/xxHash/xxhash.h:5097-5103 | opens a fresh session with the default secret from any state |
| `Xxh3Stream.State.ResetWithSeed` | thirdparty/xxHash/xxhash.h:5117-5126 | opens a session with that seed although the derived secret is only recomputed when the seed changed |
| `Xxh3Stream.State.ResetWithSecret` | thirdparty/xxHash/xxhash.h:5106-5114 | succeeds exactly on secrets of at least 136 bytes; a refused secret leaves no usable session |
| `Xxh3Stream.State.ResetWithSecretAndSeed` | thirdparty/xxHash/xxhash.h:5129-5138 | succeeds on the same secrets; a refusal leaves the session as it was |
| `Xxh3Stream.ConsumeStripes` | thirdparty/xxHash/xxhash.h:5143-5165 | accumulates a run of stripes over at most one block boundary, scrambling there |
| `Xxh3Stream.IngestBlocks` | thirdparty/xxHash/xxhash.h:5229-5256 | the block-wise path of an update absorbs exactly the stripes it passes |
| `Xxh3Stream.IngestBuffers` | thirdparty/xxHash/xxhash.h:5257-5275 | the buffer-wise path absorbs exactly the stripes it passes and leaves at most one buffer |
| `Xxh3Stream.FlushBuffer` | thirdparty/xxHash/xxhash.h:5212-5226 | completing and consuming a partly filled buffer absorbs its four stripes |
| `Xxh3Stream.Feed` | thirdparty/xxHash/xxhash.h:5175-5289 | an update turns the invariant for the bytes fed before into the one for those bytes and the input |
| `Xxh3Stream.DigestLong` | thirdparty/xxHash/xxhash.h:5299-5331 | finishing a copy of the accumulators gives the one-shot accumulators, also when the last stripe straddles the kept one and the buffer |
| `Xxh3Stream.HashLongLoop` | thirdparty/xxHash/xxhash.h:4764-4795 | the one-shot loop over blocks, a partial block and the last stripe is the fold over stripes |
| `Xxh3Stream.Hash64` | thirdparty/xxHash/xxhash.h:4925-4976 | the one-shot code is the one-shot hash that the digests are compared with |
| `Xxh3Stream.Hash128Of` | thirdparty/xxHash/xxhash.h:5699-5756 | the same for 128 bits |
| `Xxh3Stream.StraddlingStripe` | thirdparty/xxHash/xxhash.h:5321-5330 | with less than a stripe buffered, the end of the kept stripe and the buffer are the last 64 bytes of the input |
| `Xxh3Layout.LongExactly` | thirdparty/xxHash/xxhash.h:4764-4851 | for more than 240 bytes, in every mode, both hashes from the accumulators after each stripe, with the bytes of the secret that every stripe, scramble, the last stripe and the two merges read written out, and the two starting values |
| `Xxh3Layout.TurnsOf` | thirdparty/xxHash/xxhash.h:4764-4785 | every input has those accumulators |
| `Xxh3Layout.LowHalfIsHash64` | thirdparty/xxHash/xxhash.h:5627-5636 | in every mode the low half of a 128-bit hash of more than 240 bytes is the 64-bit hash |
| `Xxh3Layout.WindowsApart` | thirdparty/xxHash/xxhash.h:4792-4793 | for every usable secret, no stripe and no scramble shares its bytes of the secret with the last stripe, and the two merges read different ones |
| `Xxh3Layout.EntryPoints` | thirdparty/xxHash/xxhash.h:4950-4976 | what each entry point is in terms of the others, for short and for long inputs, and which secret and seed it hashes with |
| `Xxh3Known.KnownAnswers` | thirdparty/xxHash/cli/xsum_sanity_check.c:149-197 | XXH3_64bits and XXH3_128bits of the 403 bytes of the sanity check, with the scalar kernel, are the answers listed there |
| `Xxh3Laws.ScrambleInjective` | thirdparty/xxHash/xxhash.h:4585-4614 | scrambling loses nothing, whatever the secret: each lane can be computed back |
| `Xxh3Laws.DerivedWords` | thirdparty/xxHash/xxhash.h:4616-4682 | in a derived secret the seed is added to every even word of the secret and subtracted from every odd one |
| `Xxh3Scalar.ScalarRounds` | thirdparty/xxHash/xxhash.h:4535-4575 | the lane-by-lane loop that adds into neighbouring lanes equals the form that updates all lanes at once |
| `Xxh3Scalar.AccumulateScalar` | thirdparty/xxHash/xxhash.h:4559-4575 | run on the words and keyed products of a stripe, that loop leaves in the lanes what the kernel's accumulation says |
| `Xxh3Scalar.Fold` | thirdparty/xxHash/xxhash.h:3673-3678 | the fold through the portable multiply is the exclusive or of the two halves of the product |
| `Xxh3Scalar.Scalar` | thirdparty/xxHash/xxhash.h:3475-3489 | the scalar kernel with the library's secret meets what the streaming proofs ask of a kernel |
| `Mult128.Multiply` | thirdparty/xxHash/xxhash.h:3645-3659 | the four-product multiply returns exactly the 128-bit product, and every intermediate sum fits 64 bits |
| `XxhClassic.HashChunks32` | thirdparty/xxHash/xxhash.h:2376-2447 | XXH32 streaming is the one-shot hash for every chunking, also past 2^32 bytes |
| `XxhClassic.HashChunks64` | thirdparty/xxHash/xxhash.h:2817-2886 | XXH64 streaming is the one-shot hash for every chunking |
| `XxhClassic.State32.Update` | thirdparty/xxHash/xxhash.h:2376-2428 | the 32-bit total wraps, yet the large-length flag is set exactly when the true total is at least 16 |
| `XxhClassic.State32.Digest` | thirdparty/xxHash/xxhash.h:2431-2447 | the digest is the one-shot hash of everything fed, choosing by the flag and not by the wrapped total |
| `XxhClassic.State64.Update` | thirdparty/xxHash/xxhash.h:2817-2866 | the lanes and the buffer are what absorbing everything fed so far leaves |
| `XxhClassic.State64.Digest` | thirdparty/xxHash/xxhash.h:2869-2886 | the digest is the one-shot hash of everything fed |
| `XxhClassic.Hash` | thirdparty/xxHash/xxhash.h:2289-2320 | the one-shot loop is the fold over stripes and the finish on the rest |
| `XxhClassic.AbsorbRest` | thirdparty/xxHash/xxhash.h:2384-2424 | what stays buffered is always the total length modulo the stripe |
| `XxhLanes.Xxh32` | thirdparty/xxHash/xxhash.h:2119-2320 | the XXH32 arithmetic is a kernel of 16-byte stripes whose third lane starts as the seed |
| `XxhLanes.Xxh64` | thirdparty/xxHash/xxhash.h:2638-2761 | the XXH64 arithmetic is a kernel of 32-byte stripes whose third lane starts as the seed |
| `XxhKnown.Known32` | thirdparty/xxHash/cli/xsum_sanity_check.c:101-110 | XXH32 of the empty input and of the 222 bytes of the sanity check are the answers listed there |
| `XxhKnown.Known64` | thirdparty/xxHash/cli/xsum_sanity_check.c:113-123 | XXH64 of the empty input and of the 222 bytes of the sanity check are the answers listed there |
| `CJsonString.ParseHex4` | src/common/cJSON.cc:611-644 | four hexadecimal digits give their value, anything else gives 0 |
| `CJsonString.DecodeEncoded` | src/common/cJSON.cc:711-759 | for every Unicode scalar value the written bytes are well-formed by the grammar of section 4 of RFC 3629 and decode to that value |
| `CJsonString.EscapeOfHex` | src/common/cJSON.cc:648-709 | an escape of valid digits is read as section 7 of RFC 8259 prescribes: a plain unit, or a high surrogate with a low one behind it, and nothing else |
| `CJsonUtf8.EscapeWritten` | src/common/cJSON.cc:648-759 | an escape of valid digits writes bytes that decode to the code point it names, and is refused exactly when it names none |
| `CJsonString.WriteUtf8` | src/common/cJSON.cc:711-759 | the backwards writing loop stores exactly the UTF-8 encoding behind what was there |
| `CJsonLiteral.EscapesInWindow` | src/common/cJSON.cc:782-806 | however a window lies across the escape boundaries of the counting pass, it begins at most half as many escapes as it has bytes |
| `CJsonLiteral.FindClosing` | src/common/cJSON.cc:782-804 | the counting pass finds the closing quote and the number of escapes before it, or that there is none |
| `CJsonLiteral.ReadEscape` | src/common/cJSON.cc:648-709 | reads one escape or surrogate pair, or refuses it |
| `CJsonLiteral.FillOutput` | src/common/cJSON.cc:815-873 | the writing pass never writes past the bytes that the counting pass allotted, for every input, and produces the unescaped text |
| `CJsonLiteral.ParseString` | src/common/cJSON.cc:769-873 | the two passes together read a string literal |
| `CJsonStringGrammar.StringRead` | src/common/cJSON.cc:769-873 | every string of section 7 of RFC 8259 is read as the bytes that it stands for, whatever follows |
| `CJsonStringGrammar.LiteralExactly` | src/common/cJSON.cc:769-873 | which texts are read as a string, and as which bytes: those of the RFC, and besides them control bytes for themselves, bad digits as a NUL, and a backslash that takes the closing quote |
| `CJsonUtf8.LiteralStaysWellFormed` | src/common/cJSON.cc:769-873 | a literal with well-formed UTF-8 between its quotes has a well-formed value exactly when no escape that the writing pass takes ends inside a character |
| `CJsonUtf8.ValidLiteral` | src/common/cJSON.cc:769-873 | a literal of well-formed text whose escapes have hexadecimal digits has a well-formed value |
| `CJsonUtf8.CutCharacter` | src/common/cJSON.cc:611-644 | a literal of well-formed text whose value is ill-formed |
| `CJsonParser.ParseText` | src/common/cJSON.cc:1034-1169 | the offset-driven parser, with parse_string and parse_number as they run, returns what the grammar over the remaining text says, errors and nesting limit included |
| `CJsonAccept.ParsesJson` | src/common/cJSON.cc:1034-1707 | every JSON text of RFC 8259 is parsed to the tree that it denotes, exactly when that is nested at most 1000 deep |
| `CJsonAccept.AcceptText` | src/common/cJSON.cc:1034-1707 | the same for any blanks, strings and numbers that the scanners read |
| `CJsonSound.ParsesOnlyJson` | src/common/cJSON.cc:1034-1707 | a tree that comes out of the parser is denoted by a beginning of the text, in the dialect of its own blanks, strings and numbers, after blanks and perhaps a byte order mark |
| `CJsonSound.SoundText` | src/common/cJSON.cc:1034-1707 | the same over any scanners, for every dialect that has what they yield |
| `CJsonParser.ParseBuffer.ParseValue` | src/common/cJSON.cc:1308-1360 | the same for one value, with the offset left behind it and the depth restored |
| `CJsonParser.ParseBuffer.ParseArray` | src/common/cJSON.cc:1437-1532 | the same for an array |
| `CJsonParser.ParseBuffer.ParseObject` | src/common/cJSON.cc:1597-1707 | the same for an object |
| `CJsonParser.ParseBuffer.SkipWhitespace` | src/common/cJSON.cc:1034-1057 | leaves the offset on the first byte above 32, or on the last byte |
| `CJsonNumber.ReadNumber` | src/common/cJSON.cc:305-380 | the double of the longest run of at most 63 number bytes, as far as strtod reads it, and beside it that double truncated and kept within the range of an int |
| `CJsonNumber.NumberExactly` | src/common/cJSON.cc:305-358 | what is read is what strtod reads of the longest beginning of digits, signs, points and exponent letters, up to 63 bytes of it |
| `CJsonDouble.SaturatedExactly` | src/common/cJSON.cc:360-375 | the stored integer is the double without the part behind the point, kept within 32 bits |
| `CJsonDouble.Neighbours` | src/common/cJSON.cc:360-375 | the next bits are the value that is larger by one unit of the exponent |
| `CJsonDouble.Ordered` | src/common/cJSON.cc:360-375 | larger bits are larger values |
| `CJsonDouble.Signs` | src/common/cJSON.cc:360-375 | the sign bit negates |
| `CJsonDouble.ZeroAndOne` | src/common/cJSON.cc:360-375 | the bits of zero and of one, from which the units give the value of all bits |
| `CJsonNumber.RenderedAgain` | src/common/cJSON.cc:538-577 | given what fifteen and seventeen digits promise of a double, a printed double reads back as some double, and if that is finite it prints as the same text |
| `CJsonNumber.BackExactly` | src/common/cJSON.cc:538-577 | a double is read back exactly when its fifteen digits give it, or give one that the test for closeness refuses |
| `CJsonPrinter.PrintBuffer.Ensure` | src/common/cJSON.cc:439-522 | makes room exactly when the total stays within INT_MAX, or within the caller's buffer, and memory is granted, and keeps the text |
| `CJsonPrinter.PrintBuffer.UpdateOffset` | src/common/cJSON.cc:525-535 | moves the offset to the terminator |
| `CJsonPrinter.PrintBuffer.PrintNumber` | src/common/cJSON.cc:545-607 | renders the double, and writes it and a terminator exactly when it is at most 25 bytes long and they fit |
| `CJsonPrinter.PrintBuffer.PrintString` | src/common/cJSON.cc:898-1017 | writes the escaped literal of the bytes before the first NUL, and a terminator, exactly when they fit |
| `CJsonPrinter.PrintBuffer.PrintValue` | src/common/cJSON.cc:1363-1434 | appends the text of any tree, or fails, exactly when text and terminator would not fit, a number is too long or memory is refused |
| `CJsonPrinter.PrintBuffer.PrintArray` | src/common/cJSON.cc:1535-1594 | the same for an array |
| `CJsonPrinter.PrintBuffer.PrintObject` | src/common/cJSON.cc:1710-1821 | the same for an object |
| `CJsonPrinter.EscapedLength` | src/common/cJSON.cc:922-946 | the counting pass over a string predicts the escaped length, and no escapes means an unchanged text |
| `CJsonPrinter.Print` | src/common/cJSON.cc:1183-1256 | the whole text of any tree, or nothing under exactly those conditions |
| `CJsonPrinter.PrintBuffered` | src/common/cJSON.cc:1258-1286 | the same from a first buffer of any size, and nothing for a negative one |
| `CJsonPrinter.PrintPreallocated` | src/common/cJSON.cc:1288-1306 | the text and its terminator are in the caller's buffer, exactly when the buffer has one more byte than they need and no number is too long |
| `CJsonRoundTrip.QuotedString` | src/common/cJSON.cc:898-1017 | a printed string is a JSON string of RFC 8259 that stands for the bytes, whatever they are |
| `CJsonRoundTrip.LiteralOfQuoted` | src/common/cJSON.cc:769-873 | reading a printed string gives the string back, for every string |
| `CJsonRoundTrip.PrintsJson` | src/common/cJSON.cc:1363-1821 | what is printed of any tree, with and without white space, is a JSON text of RFC 8259; it denotes the tree with its strings up to their first NUL, its doubles as what their text reads, and infinities and NaNs as null |
| `CJsonRoundTrip.PrintedDenotes` | src/common/cJSON.cc:1363-1821 | the same for any numbers and their texts, in any dialect that has them |
| `CJsonSample.PrintedSample` | src/common/cJSON.cc:1535-1821 | the formatted text of a tree with a nested object and an array, byte by byte: where the line breaks, tabs and spaces go |
| `CJsonSample.CompactSample` | src/common/cJSON.cc:1535-1821 | the unformatted text of the same tree, without white space |
| `CJsonRoundTrip.RoundTrip` | src/common/cJSON.cc:1308-1821 | parsing a printed tree gives that tree, exactly when it is nested at most 1000 deep, for every tree, with and without white space |
| `CJsonReprint.ParseFits` | src/common/cJSON.cc:1308-1707 | every tree that comes out of the parser, from any text, is nested at most 1000 deep |
| `CJsonReprint.Reprint` | src/common/cJSON.cc:1171-1256 | a tree parsed from any text, printed and parsed again: what comes back, that it is the same tree exactly when it holds no NUL and each double is read back, that the text stays exactly when no double becomes infinite, and that it stays after one more round |
| `CJsonReprint.RereadExactly` | src/common/cJSON.cc:1308-1821 | what comes back of a tree is the tree itself exactly when it holds no NUL and each double is read back |
| `CJsonReprint.OverflowPrinted` | src/common/cJSON.cc:538-577 | a double whose fifteen digits read as an infinity that passes for close is printed as a number, then as null |
| `CJsonReprint.LargestDouble` | src/common/cJSON.cc:538-577 | the largest double is one, given how C writes and reads it |
| `CJsonCodec.PrintAndParse` | src/common/cJSON.cc:1171-1256 | the printing and parsing code, one after the other, on any tree |
| `CJsonList.GetItem` | src/common/cJSON.cc:1847-1864 | the item at a position, null behind the end |
| `CJsonList.Append` | src/common/cJSON.cc:1924-1983 | the list grows by the item exactly when the item was linked to nothing or the list was empty |
| `CJsonList.Detach` | src/common/cJSON.cc:2183-2217 | the list without that position, the item unlinked |
| `CJsonList.DetachAt` | src/common/cJSON.cc:2219-2227 | the same by index; a bad index changes nothing |
| `CJsonList.Insert` | src/common/cJSON.cc:2259-2286 | the list with the item at that position; behind the end, the list grows by the item exactly when the item was linked to nothing or the list was empty |
| `CJsonList.Replace` | src/common/cJSON.cc:2288-2335 | the list with that position replaced, also for a single item; what goes to cJSON_Delete is the replaced item, cut off from its neighbours, and nothing when it replaces itself |
| `CJsonList.ReplaceAt` | src/common/cJSON.cc:2337-2345 | the same by index |
| `CJsonList.DetachAndInsert` | src/common/cJSON.cc:2183-2286 | taking an item out and putting it back at its position restores the list |
| `RwLock.Preserved` | include/util/rwlock.h:14-46 | every step, barging writers and spurious wakeups included, keeps exclusion, exact counts and no lost wakeup |
| `RwLock.Safety` | include/util/rwlock.h:14-46 | in every state of every run: one writer or any number of readers, counts equal to the requests, and no sleeper with the lock free and nobody notified |
| `RwLock.Progress` | include/util/rwlock.h:14-46 | when the lock is free and requests are pending, the notified ones are admitted as soon as they run |
| `RwLock.WritersFirst` | include/util/rwlock.h:33-37 | while a writer waits, no reader is admitted |
| `RwLock.WorkDecreases` | include/util/rwlock.h:14-46 | every step of a thread that is already inside uses up a bounded amount of work |
| `RwLock.SomethingToServe` | include/util/rwlock.h:14-46 | no deadlock: while a request is pending, some thread has a step |
| `RwLock.EveryRequestServed` | include/util/rwlock.h:14-46 | once requests stop arriving, every schedule ends within a stated number of steps, and then every pending request has held the lock |
| `LruSpec.RecentHit` | include/common/lrucache.h:81-165 | after any history, a key used and since then neither replaced nor dropped is found with its value while fewer than maxSize other keys were touched |
| `LruSpec.SizeBound` | include/common/lrucache.h:153-165 | over any run a bounded cache never holds more than max(maxSize, maxSize + elasticity - 1) entries |
| `LruSpec.RunDistinct` | include/common/lrucache.h:81-165 | over any run the keys stay distinct |
| `LruHits.PutExactly` | include/common/lrucache.h:86-165 | a new key goes to the front and drops nothing, unless the elastic limit is reached, and then exactly the maxSize most recent entries stay |
| `LruHits.HitExactly` | include/common/lrucache.h:81-165 | over every run, a key is found exactly when some call used it and no call since its last use removed it, cleared the cache, or put a new key that overflowed with at least maxSize entries used since then |
| `LruHits.LastValue` | include/common/lrucache.h:86-98 | a key that is found has the value of its last put |
| `LruCache.Replay` | include/common/lrucache.h:81-165 | any sequence of operations on a new cache, then a lookup, answers as the recency list says |
| `LruCache.Cache.Insert` | include/common/lrucache.h:86-98 | list and map stay linked; the entry moves or goes to the front, and a new one may prune |
| `LruCache.Cache.TryGet` | include/common/lrucache.h:99-108 | finds what the list has and moves it to the front |
| `LruCache.Cache.Remove` | include/common/lrucache.h:128-137 | drops the entry from list and map |
| `LruCache.Cache.Contains` | include/common/lrucache.h:138-141 | whether the recency list has the key |
| `LruCache.Cache.Clear` | include/common/lrucache.h:81-85 | empties list and map |
| `LruCache.Cache.Prune` | include/common/lrucache.h:153-165 | cuts back to maxSize once the elastic limit is reached, least recent first |
| `DentryCache.KeyInjective` | include/client/dentry_cache.h:30-55 | no two pairs of directory and name share a cache key |
| `DentryCache.CoherentAfterPut` | include/client/dentry_cache.h:39-45 | storing a binding keeps every cached answer a binding, whatever is evicted |
| `PathSpec.ComponentsConcat` | src/client/metaclient.cc:42-137 | a path's components split at any slash |
| `PathSpec.ComponentsExactly` | src/client/metaclient.cc:82-128 | the components are the names that a path joins with slashes, any number of them between two names and at both ends |
| `PathSpec.WalkExactly` | src/client/metaclient.cc:82-128 | a walk ends where a trail of bindings over the names leads, and fails exactly when no trail does |
| `PathSpec.ResolveExactly` | src/client/metaclient.cc:42-137 | the result of resolving, if and only if: no leading slash, only slashes, a trail over all names but the last with their number as the depth, or no such trail |
| `PathSpec.TrailingSlash` | src/client/metaclient.cc:65-68 | stripping a trailing slash does not change the components |
| `PathSpec.FinalName` | src/client/metaclient.cc:86-130 | the text behind the last slash is the last component |
| `PathSpec.DepthExactly` | src/client/metaclient.cc:55-63 | a resolved path writes the depth exactly when it holds a byte other than a slash, and then the number of directories walked |
| `PathSpec.RootLeavesDepth` | src/client/metaclient.cc:55-63 | "/" resolves to the root and leaves the depth as it was |
| `MetaClient.Client.Child` | src/client/metaclient.cc:93-113 | a component is its binding unless both calls to a server were turned away; a cached one costs no call, and either way it is then the cache's most recent entry |
| `MetaClient.Client.WalkPath` | src/client/metaclient.cc:82-128 | the loop from slash to slash ends where the trail over the names before the last slash leads, or finds that none does |
| `MetaClient.Client.Internal` | src/client/metaclient.cc:82-137 | the result for a path that does not end in a slash |
| `MetaClient.Client.ResolvePath` | src/client/metaclient.cc:42-137 | for every path, cache capacity and coherent cache, the result is the one that the trails of bindings prescribe unless a lookup was turned away twice in a row, with at most two calls a component; the cache stays coherent |
| `OpenFileMap.FreshThroughout` | src/client/open_file_map.cc:110-205 | in every run without a colliding dup2, across wrap-around, add and dup return unused descriptors that then stand for the file |
| `OpenFileMap.Kept` | src/client/open_file_map.cc:110-205 | a call keeps open descriptors behind the counter, or validated, exactly when it is not a colliding dup2 |
| `OpenFileMap.FreshExactly` | src/client/open_file_map.cc:110-127 | in any state an allocation is fresh exactly when it validates or the counter's value is unused |
| `OpenFileMap.CollisionExactly` | src/client/open_file_map.cc:162-180 | the add after a dup2 is fresh exactly when the dup2 did not collide |
| `OpenFileMap.CollidingRun` | src/client/open_file_map.cc:162-180 | a run in which it does, and a file is lost |
| `OpenFileMap.StandsAfter` | src/client/open_file_map.cc:129-180 | one call changes what exactly the descriptors it concerns stand for; a remove takes away that descriptor and no other |
| `OpenFileMap.StandsExactly` | src/client/open_file_map.cc:110-180 | over every run, a descriptor stands for a file exactly when the last call that concerned it opened it for that file |
| `OpenFileMap.ClosedUntilOpened` | src/client/open_file_map.cc:136-148 | a removed descriptor is not open until a call opens it again |
| `OpenFileMap.FlagAfter` | src/client/open_file_map.cc:110-200 | one call on the flag and on the counter |
| `OpenFileMap.FlagExactly` | src/client/open_file_map.cc:110-200 | over every run, descriptors are checked exactly when the counter wrapped or a dup2 went ahead of it and the table has not been empty since |
| `OpenFileMap.RetryEndsExactly` | src/client/open_file_map.cc:121-125 | the retry loop ends exactly when some descriptor is unused |
| `OpenFileMap.FileMap.GenerateFdIdx` | src/client/open_file_map.cc:186-200 | the counter's value, wrapping from INT_MAX to the start and asking for validation then |
| `OpenFileMap.FileMap.SafeGenerateFdIdx` | src/client/open_file_map.cc:110-127 | the first unused descriptor in cyclic order when validating, else the counter |
| `OpenFileMap.FileMap.Add` | src/client/open_file_map.cc:129-134 | one step of the table |
| `OpenFileMap.FileMap.Remove` | src/client/open_file_map.cc:136-148 | one step of the table: that descriptor is gone, every other stands for what it stood for |
| `OpenFileMap.FileMap.Dup` | src/client/open_file_map.cc:150-160 | one step of the table |
| `OpenFileMap.FileMap.Dup2` | src/client/open_file_map.cc:162-180 | one step of the table |
| `Bitmap.LowestClear` | include/util/bitmap.h:57 | the lowest set bit of v + 1 is the lowest clear bit of v |
| `Bitmap.BitValue` | include/util/bitmap.h:57-74 | setting or flipping a bit changes the word by its power of two |
| `Bitmap.Map.constructor` | include/util/bitmap.h:17-29 | nothing is given out, and the padding behind the last slot is set |
| `Bitmap.Map.GetFree` | include/util/bitmap.h:37-64 | the lowest clear bit, or -1 exactly when there is none; while the padding is set, that is the lowest slot not given out; the free count stays the number of clear bits and the final assertion is unreachable |
| `Bitmap.Map.PutBack` | include/util/bitmap.h:66-76 | clears exactly that bit, or refuses a clear one; the padding stays set exactly when the bit is a slot |
| `Bitmap.GetPadding` | include/util/bitmap.h:37-76 | for every bit of the padding, the run that gives it back and goes on until it is handed out as a slot |
| `Bitmap.Map.FreeSlots` | include/util/bitmap.h:31-35 | while the padding is set, the free count is the number of slots not given out |
| `JumpHash.Increasing` | include/util/jump_hash.h:7-15 | the jump sequence, which does not depend on the bucket count, is strictly increasing |
| `JumpHash.JumpAhead` | include/util/jump_hash.h:12 | under any monotone rounding that keeps small integers, a jump goes ahead and fits an int64 |
| `JumpHash.Land` | include/util/jump_hash.h:7-15 | the loop ends on the last jump below the bucket count |
| `JumpHash.MinimalMovement` | include/util/jump_hash.h:7-15 | with more buckets a key stays or moves to a new bucket, and moves exactly when its next jump is below the new count |
| `JumpHash.Grow` | include/util/jump_hash.h:7-15 | results are in range, and for one more bucket the result is unchanged or the new bucket |
| `JumpBalance.KeysApart` | include/util/jump_hash.h:11 | the key sequence can be run backwards, so different keys never meet, however often they are advanced |
| `JumpBalance.PreviousUndone` | include/util/jump_hash.h:11 | every key is what some key is advanced to |
| `JumpBalance.JumpExactly` | include/util/jump_hash.h:12 | with exact arithmetic, a jump without its division: the last multiple of the divisor up to 2^31 times the bucket count |
| `JumpBalance.Balance` | include/util/jump_hash.h:12 | of the 2^31 outputs of the generator exactly the share (b + 1) / m leaves a key of bucket b there with m buckets |
| `JumpBalance.FirstMove` | include/util/jump_hash.h:7-15 | with exact arithmetic, key 1 leaves bucket 0 for bucket 6 as soon as there are seven buckets |
| `Regions.SplitExactly` | src/server/region_and_log.cc:178-194 | publishing a split keeps every hash in exactly one region if and only if the region starts no later than its upper half |
| `Regions.SplitNonEmptyExactly` | src/server/region_and_log.cc:178-194 | no region becomes empty if and only if the region starts in its lower half |
| `Regions.UpperHalvesDoNotSplit` | src/server/region_and_log.cc:51-52 | splitting [512, 1023] leaves an empty region, and splitting that one overlaps |
| `Regions.ConsistentStep` | src/server/region_and_log.cc:48-73 | begun, published and finished splits keep the servers' ranges and the published map in agreement, and a region out of its normal status exactly while a split of it is pending |
| `Regions.PartitionThroughout` | src/server/region_and_log.cc:9-196 | in every run from any number of servers, the published regions are non-empty and partition the hashes at every moment if and only if every published split is of a region that starts in its lower half |
| `Regions.ExactThroughout` | src/server/region_and_log.cc:9-196 | in every such run every hash is in exactly one region at every moment if and only if every published split is of a region that starts no later than its upper half |
| `Regions.FirstSplitExactly` | src/server/region_and_log.cc:9-194 | the first split of server i's region keeps every hash in one region exactly when i <= 1, and leaves no region empty exactly when i == 0 |
| `Regions.DyadicThroughout` | src/server/region_and_log.cc:9-196 | in a run from any number of servers that keeps the partition, every published range is [0, 2^k - 1], [2^k, 2^(k+1) - 1] or still the first range of a server other than the first, and only the region at 0 is ever halved |
| `Regions.Servers.CheckRegionAndSplit` | src/server/region_and_log.cc:48-73 | after any number of turns of the search: a split has begun under the first fresh id that another server owns, or every id so far was its own and none has begun |
| `Regions.SearchEndsExactly` | src/server/region_and_log.cc:53-58 | the search ends if and only if some id from the counter on belongs to another server |
| `Regions.OneServerNeverSplits` | src/server/region_and_log.cc:53-58 | with one server jump hashing gives it every id, so the search never ends and no split begins |
| `Regions.Servers.PublishSplit` | src/server/region_and_log.cc:176-196 | one publish step, or a stop when an assertion fails |
| `Regions.Servers.FinishSplit` | src/server/region_and_log.cc:219-233 | the handed-over region stands on its own and its left one may split again |
| `Regions.Servers.RegisterRegion` | src/server/region_and_log.cc:9-31 | in any order, each registration adds its server to those registered |
| `Regions.Servers.constructor` | src/server/region_and_log.cc:9-31 | n servers that have registered, in any order, are the state from which the runs start |
| `RegionLookup.ReadRegionMap` | src/rpc/rpc_client.cc:322-328 | entries of disjoint regions, in any order, become an ordered map with the same entries |
| `RegionLookup.Insert` | include/client/hooks.h:52-60 | inserting keeps the order, and does nothing when an overlapping range is there |
| `RegionLookup.FindRegionId` | include/client/hooks.h:87-94 | the linear scan finds a region that has the hash, or -1 when none does |
| `RegionLookup.FindByOrder` | include/client/hooks.h:52-60 | the ordered search under the comparison gives the same kind of answer |
| `RegionLookup.Locate` | include/client/hooks.h:52-94 | over a partition, scan and ordered search both find the one region that has the hash |
| `ChecksumLine.BsdRoundTrip` | thirdparty/xxHash/cli/xxhsum.c:199-220 | parsing a printed BSD line, in either byte order, gives back file name, algorithm and digest, for every file name |
| `ChecksumLine.GnuRoundTrip` | thirdparty/xxHash/cli/xxhsum.c:222-242 | parsing a printed GNU line gives back the file name, the algorithm up to XXH3, and the digest in the assumed byte order |
| `ChecksumLine.GnuAlgorithm` | thirdparty/xxHash/cli/xxhsum.c:559-564 | a GNU line is recovered in full exactly when the algorithm is not XXH3 |
| `ChecksumGrammar.ParseExactly` | thirdparty/xxHash/cli/xxhsum.c:536-608 | which lines are read, and as which file name, algorithm and digest, if and only if: the two shapes of a line, with their own bytes |
| `ChecksumGrammar.PrintsExactly` | thirdparty/xxHash/cli/xxhsum.c:190-242 | what is printed has those shapes, with two spaces in a GNU line and a name that says algorithm and byte order in a BSD line |
| `ChecksumGrammar.HexExactly` | thirdparty/xxHash/cli/xxhsum.c:101-115 | digits are printed in lower case, the high one first |
| `ChecksumLine.CanonicalFromString` | thirdparty/xxHash/cli/xxhsum.c:495-514 | succeeds exactly on hexadecimal digits, and then stores the bytes they write in the requested order |
| `ChecksumLine.Display` | thirdparty/xxHash/cli/xxhsum.c:101-115 | both display loops print the digits of the bytes in their order |
| `ChecksumLine.ParseLine` | thirdparty/xxHash/cli/xxhsum.c:536-608 | the parser that cuts the line buffer in place returns what the fields of the line say |
| `ChecksumLine.CutLine` | thirdparty/xxHash/cli/xxhsum.c:536-559 | cutting the buffer at its spaces yields the fields of the line |
| `ChecksumLine.NamedAlgo` | thirdparty/xxHash/cli/xxhsum.c:555-558 | comparing the cut buffer with the four names, later ones overriding, is the algorithm of the name |

## Left out

- XXH3 hashes of inputs of at most 240 bytes: their bodies are a parameter of the kernel; streaming equals one-shot whatever they compute.
- SIMD kernels, CPU dispatch, alignment and big-endian paths: only the scalar little-endian path is modelled.
- Secrets are values: the code keeps a reference to the caller's secret, so a caller that changes it later is outside the model.
- `Xxh3Script.Run`: inputs whose total length reaches 2^64 bytes, where the 64-bit total itself wraps, are excluded.
- `XxhClassic.HashChunks64`: the length enters the hash as an unbounded number that the instance in `XxhLanes` reduces modulo 2^64.
- cJSON's number conversions: strtod, sscanf, sprintf and compare_double are parameters, with what C promises of them stated in `CJsonNumber.Converts`: their texts are JSON numbers, and what fifteen and seventeen digits keep; the decimal point is a period.
- `JumpBalance.Balance`: the share is that of exact division, which the rounding of doubles may shift by single outputs.
- `Xxh3Known.KnownAnswers`: no scramble happens within 403 bytes; scrambling has its laws in `Xxh3Laws`.
- Allocation failure in the parser, error positions, cJSON_Raw, references, cJSON_Minify, lookups by key, and what cJSON_Delete frees.
- The cJSON parser builds tree values; that child lists are linked correctly is `CJsonList`, on items without contents, and null parents, which return at once, are not modelled.
- `RwLock.EveryRequestServed`: fairness under an endless stream of writers is not claimed, since the lock prefers writers.
- RwLock counters are unbounded integers.
- The LRU cache's own lock, `cwalk` and the exception that `get` throws; a missing key is the empty answer of `TryGet`.
- `MetaClient.Client.ResolvePath`: bindings do not change during a run, and refreshing the region map between two calls has no effect on them.
- Concurrency in the descriptor table: each call is one step, although `add` draws its descriptor outside the table's lock.
- The compare-and-swap loops of the bitmap, which run under a mutex, are plain updates.
- Region migration: the payloads that are sent, the request handlers over the store, and splits of regions whose range the halving formula does not cut in two beyond the exact conditions above.
- `Regions.Servers.CheckRegionAndSplit`: the key count that triggers a split is the caller's business, and the endless search is seen through its first turns, as many as the caller asks for.
- Reading lines from a file in xxhsum, its line-length limit, and its command line.
- Syscall hooking, configuration, memcached, eRPC, RocksDB, logging and benchmarks.
