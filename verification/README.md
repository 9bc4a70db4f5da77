# libmini, verified

A Dafny model of libmini's hand-written algorithms, with proofs that they meet independent
specifications. Each file holds one component; loops and objects of the library are methods
and classes here, proved against functions, and what the library promises is proved of those
functions as lemmas. Check everything with `dafny verify dfyconfig.toml`.

- **BLAKE3**: `Blake3` defines the recursive tree of sections 2.1 to 2.6 of the BLAKE3 paper,
  `Blake3Hasher` the incremental hasher and its stack. The compression function is a field of
  the hasher; nothing depends on its rounds. `Blake3Compressions` says what it is asked, in the
  paper's own numbers, and `Blake3Collisions` that the tree adds no collisions to it.
- **Digests and HMAC**: `Digest` holds padding as FIPS 180-4 section 5.1 and RFC 1321 sections
  3.1 and 3.2 define it, `DigestStream` one buffered object for all four digests (they share
  their code but for sizes, byte order and counter width), `DigestCollisions` what their bytes
  mean and that they add no collisions, `Hmac` section 2 of RFC 2104.
- **CRC**: `Crc`, both registers over XOR, `CrcBits`, the same a bit at a time, and `CrcCheck`,
  the catalogues' check values.
- **Glob**: `Glob` is the match relation, `GlobMatcher` the greedy loop, `GlobPatterns` what
  patterns match, `GlobBracket` what a range's upper bound does.
- **CSV**: `Csv` is parser and printer, `CsvGrammar` the texts they take and write,
  `CsvRoundTrip` what survives both, `CsvNoQuotes` and `CsvUnquoted` what a disabled quote means,
  `CsvBlankLines` which lines are dropped.
- **Graphemes**: `RangeTable` for table construction and lookup, `Utf8` and `Utf8RoundTrip` for
  decoding, `GraphemeSpec` for the look-back rules of section 3.1.1 of UAX #29, `GraphemeClusters`
  for what they keep together, `GraphemeScan` for the automata that restart at every cluster.
- **Protocols**: `Scheduler`, `AsyncScheduler` and `SchedulerLive`, `RateLimiter` and `RateWindows`,
  `CircuitBreaker` and `BreakerRuns`, `WorkerPool`, `WorkerOutcomes` and `RunState`, `Upload`,
  `UploadRequests`, `UploadRecords`, `UploadChunks`, `UploadRaces` and `FileApi`. Each is a state
  machine over its locked regions or handlers, with theorems over all runs, beside a class whose
  methods are its steps.
- **Codecs**: `Base64`, `HexUrl`, `Base32`, `Charset`, over `Arithmetic`; `CodecTables` holds the
  alphabets of RFC 4648 and what the letters stand for.

## What the proofs show about the code

- CSV printing and parsing is lossless (README.md:338) only under conditions: a row holding one
  empty field, and an empty row while blank lines are skipped, disappear, and a first row that
  starts with a BOM loses it. `RoundTripExactly` is the exact condition, and `UnquotedIff` the one
  for quoting switched off.
- A NUL quote is documented to disable quoting and to make every character literal, delimiters
  included (src/utils/csv.h:51-53). The parser still treats a NUL at the start of a field as an
  opening quote, and still cuts at delimiters; `QuotingIsOffIff` and `AllLiteralIff` are the exact
  conditions.
- Skipping blank lines is documented to drop lines of separators and blanks (src/utils/csv.h:58).
  It drops lines without any field; `DocumentedIff` says when that is the same.
- SHA-512 counts bits by `size * 8` in 64 bits, so a single update of 2^61 bytes or more is
  miscounted, and only that (`CountStepExactIff`).
- A request for more permits than the bucket holds never succeeds, so `acquire` never returns
  (`ServedIff`, `WaitsForever`).
- `commit` does not compare the declared size (`PartIsCommitted`), and `init` keeps other bytes of
  the same size (`ReinitialisedStandsIff`). The handlers ignore most failures of the index,
  and `commit` those of reading the file's size and content, which can leave a complete record for
  a changed, emptied or missing file, or one with an empty digest (`UnreadableIsCommitted`);
  `TruthfulIff` says exactly when. `DELETE` of an unknown file answers 200 (`RemoveStatus`).
- The upload handlers take no lock, so a write and its retransmission can both be added
  (`DoubledIff`); `PrefixThroughoutIff` says exactly when concurrent writes keep a file a prefix.
- The offset of a write is read as an int, so a write can start only below 2^31. A larger file
  takes a last write that starts below it and ends above (`CompletableIff`, `LargeFilesStall`).
- Strict Base32 decoding takes texts that no encoder writes, and Base64Url takes the standard
  alphabet's letters and incomplete padding; `CanonicalIff` in each says which texts are encodings.
- A range in a glob bracket has its upper bound read again as the next entry, so an escaped
  bracket there closes the expression (`EscapedBracketIsNoLiteral`); `HarmlessPatternsAgree` gives
  bounds that make no difference. Where a char is signed, a range from ASCII to a byte above it
  matches that byte alone (`RangeAcrossIff`).

## Model

| member | source | states |
|---|---|---|
| `Blake3Hasher.Blake3.Update` | src/utils/blake3.cpp:235-266 | Absorbs any amount of data: the message becomes the old one followed by the data, and buffer, chunk chaining value and stack describe the new message again. Block and chunk compressions happen only when more input follows |
| `Blake3Hasher.Blake3.Finish` | src/utils/blake3.cpp:273-341 | Whatever the splits into updates, the output is the recursive tree hash of the whole message in the current mode, cut to the length asked for |
| `Blake3Hasher.Blake3.RootNode` | src/utils/blake3.cpp:277-323 | The right-to-left fold of stack and unfinished chunk yields exactly the root compression inputs of the recursive tree |
| `Blake3Hasher.Blake3.FinishChunk` | src/utils/blake3.cpp:195-233 | Closing a full chunk keeps message and invariant, leaving an empty buffer for the next chunk |
| `Blake3Hasher.Blake3.MergeTops` | src/utils/blake3.cpp:204-219 | Merging equal-sized tops gives the tree value of a suffix of whole chunks, larger tops only below it |
| `Blake3Hasher.Blake3.PushChunk` | src/utils/blake3.cpp:204-224 | After the merge and push the stack again covers every finished chunk, within its 64 slots |
| `Blake3Hasher.Blake3.ParentCV` | src/utils/blake3.cpp:180-193 | The merge of two values is the chaining value of the parent node over them |
| `Blake3Hasher.Blake3.ResetKeyed` | src/utils/blake3.cpp:146-157 | Accepts exactly 32-byte keys, then starts an empty keyed hash under the key words; otherwise changes nothing |
| `Blake3Hasher.Blake3.ResetDerive` | src/utils/blake3.cpp:159-173 | Starts key derivation under the 32-byte hash of the context string in the context mode |
| `Blake3Hasher.Blake3.InitMode` | src/utils/blake3.cpp:126-139 | Leaves an empty hasher in the given mode, whatever was absorbed or finished before |
| `Blake3Hasher.CoversIsBinary` | src/utils/blake3.cpp:204-230 | Stack entries are strictly decreasing powers of two adding up to the chunk count: its binary digits |
| `Blake3Hasher.StackFits` | src/utils/blake3.cpp:220-224 | For every message whose chunks a 64-bit counter can number, at most 64 stack slots are in use |
| `Blake3Hasher.FoldTop` | src/utils/blake3.cpp:304-312 | Joining the top entry with everything to its right is the tree over both, and again no larger than the next entry |
| `Blake3Hasher.LastChunk` | src/utils/blake3.cpp:283-302 | The unfinished chunk is a leaf of the tree and the buffer its last block |
| `Blake3Hasher.EmitBlock` | src/utils/blake3.cpp:325-339 | Bytes of one output block, least significant first, cut where the output is long enough |
| `Blake3Hasher.LoadBlock` | src/utils/blake3.cpp:100-113 | Sixteen little-endian words; bytes past the length count as zero whatever the buffer holds |
| `Blake3Tree.JoinTrees` | src/utils/blake3.cpp:204-219 | A full power-of-two subtree joined with a right part no larger is the tree of the concatenation |
| `Blake3Tree.LeftChunksUnique` | src/utils/blake3.cpp:204-205 | The left subtree size is the only power of two between half the message and the whole |
| `Blake3Tree.OutputPrefix` | src/utils/blake3.cpp:273-341 | A shorter output is a prefix of a longer one from the same message |
| `Blake3Tree.OutputByte` | src/utils/blake3.cpp:325-339 | Output byte j is byte j % 4 of word j % 64 / 4 of the root's compression number j / 64 |
| `Blake3Compressions.FlagsApart` | src/utils/blake3.cpp:175-202 | Compressions for different purposes (inner or last block, first in its chunk or not, parent, root or not), or in different modes, never share their flags |
| `Blake3Compressions.FlagBits` | src/utils/blake3.cpp:20-26 | Bit 1 stands exactly in a chunk's first block, bit 2 in its last, bit 4 in parents, bit 8 in the root, and the other bits say the mode |
| `Blake3Compressions.HashAsksOnly` | src/utils/blake3.cpp:195-341 | For every compression function: the hash depends on it only where it gets chunk i's blocks in order under counter i, with the length and flags of their place and the key in front, parents under the key with length 64 and counter 0, and the root's input with its flag and the output block number |
| `Blake3Collisions.HashesCollide` | src/utils/blake3.cpp:273-341 | Different messages of the same hash (32 bytes or more) give two different inputs, among those compressed for the two, that are compressed to the same chaining value |
| `Blake3Collisions.ModesCollide` | src/utils/blake3.cpp:126-173 | Equal hashes in two different modes, whatever the keys and messages, are such a collision of their two roots |
| `Blake3Collisions.BlockSaysBytes` | src/utils/blake3.cpp:100-113 | Byte k of a block is byte k % 4, from the low end, of word k / 4; missing bytes are zero |
| `Blake3Collisions.KeyIsHalfBlock` | src/utils/blake3.cpp:115-122 | A 32-byte key is read like the first half of a block |
| `Blake3Collisions.RootOfTwo` | src/utils/blake3.cpp:304-323 | The root of more than one chunk has the left part's value first, the key, length 64, counter 0 and exactly the flags of a parent and a root |
| `Blake3Collisions.RootOfOne` | src/utils/blake3.cpp:283-292 | The root of up to one block has its bytes and length, the key, and exactly the three flags of a lone block |
| `Blake3Collisions.InitialValue` | src/utils/blake3.cpp:12-14 | The initial value's words are the first 32 bits of the fractions of the first eight primes' square roots |
| `DigestStream.Digest.Update` | src/utils/digest.cpp:141-167 | For every split, state is the fold of the block function over the whole blocks so far and the buffer the rest; the same code for MD5, SHA-1, SHA-256 and SHA-512 |
| `DigestStream.Digest.Finish` | src/utils/digest.cpp:169-193 | The digest is the one-shot hash of the padded message: always for 64-byte blocks, and for SHA-512 if every update was under 2^61 bytes |
| `DigestStream.Digest.TopUp` | src/utils/digest.cpp:146-157 | Filling a started block either just buffers the data or processes that block and stands at a block boundary of the stream |
| `DigestStream.Digest.Drain` | src/utils/digest.cpp:158-167 | Whole blocks go straight to the state, what is left to the buffer |
| `DigestStream.Digest.LengthField` | src/utils/digest.cpp:558-565 | The length field encodes the bit length of the message in the digest's byte order, 8 or 16 bytes |
| `DigestStream.PadIsZeroCount` | src/utils/digest.cpp:173-182 | The zero bytes the code appends are the number the standard asks for |
| `DigestStream.CountedMore` | src/utils/digest.cpp:516-522 | The counter pair stays 8 times the byte count modulo 2^128 through an update under 2^61 bytes |
| `DigestSpec.FourAreKnown` | src/utils/digest.cpp:82-90 | MD5, SHA-1, SHA-256 and SHA-512 are among the algorithms the streaming theorems cover, given block functions that keep the number of state words |
| `DigestSpec.FoldResumes` | src/utils/digest.cpp:141-167 | Folding over blocks may stop after any prefix and resume from state and rest |
| `DigestSpec.ZeroCountUnique` | src/utils/digest.cpp:552-557 | The padding rule has exactly one solution |
| `DigestSpec.CountStepExactIff` | src/utils/digest.cpp:516-522 | One SHA-512 counter step is exact if and only if the update is shorter than 2^61 bytes: `size * 8` wraps first |
| `DigestSpec.BigEndianHalves` | src/utils/digest.cpp:558-565 | Two big-endian 64-bit halves are one 128-bit big-endian number |
| `DigestCollisions.HashesCollide` | src/utils/digest.cpp:141-193 | Different messages, of lengths the length field can count, have the same digest only if the block function takes two different inputs, among those it is given for the two, to the same state; for all four digests |
| `DigestCollisions.PaddedMeans` | src/utils/digest.cpp:169-183 | The padded message is whole blocks: the message, a byte 128, fewer zeros than a block, and the number of bits in the digest's byte order |
| `DigestCollisions.DigestMeans` | src/utils/digest.cpp:184-193 | The digest's bytes spell the state's words, in order and in the digest's byte order |
| `DigestCollisions.RootsOfPrimes` | src/utils/digest.cpp:206-208 | SHA-256 and SHA-512 start at the fractions of the first eight primes' square roots |
| `DigestCollisions.CountedUpAndDown` | src/utils/digest.cpp:82-88 | MD5 and SHA-1 start at the bytes 01 23 45 67 and so on, up and down again |
| `Hmac.Hmac.SetKey` | src/utils/hmac.cpp:25-53 | Any key, after any use: inner and outer digest hold the ipad and opad block of the padded (or first hashed) key |
| `Hmac.Hmac.MakePads` | src/utils/hmac.cpp:27-46 | Both pads, built in place, are the block key XORed with 0x36 and 0x5c |
| `Hmac.Hmac.Update` | src/utils/hmac.cpp:55-58 | The authenticated data grows by the bytes, whatever the split |
| `Hmac.Hmac.Finish` | src/utils/hmac.cpp:60-68 | Under a set key the result is H(K xor opad, H(K xor ipad, data)), a comma standing for concatenation |
| `Hmac.ShortHash` | src/utils/hmac.cpp:30-37 | A hashed key always fits the 64-byte block |
| `Hmac.MacOfShortKey` | src/utils/hmac.cpp:27-68 | For a key of up to 64 bytes, written out byte by byte: the inner block is the key under 0x36, the outer one under 0x5c, missing bytes as zero |
| `Hmac.MacOfLongKey` | src/utils/hmac.cpp:30-37 | A longer key gives the same as its own hash |
| `Crc.UpdateRegister` | src/utils/crc.cpp:33-46 | Both update loops, byte by byte and bit by bit, compute the specified register |
| `Crc.AbsorbLinear` | src/utils/crc.cpp:33-46 | The register is XOR-linear in start value and equal-length data together |
| `Crc.AbsorbInjective` | src/utils/crc.cpp:71-84 | Different register values stay different whatever both absorb next |
| `Crc.BitsReached` | src/utils/crc.cpp:71-84 | Every register value is reached by some other: the step is a bijection |
| `Crc.AbsorbAppend` | src/utils/crc.cpp:58-66 | Splitting the data over update calls does not matter |
| `Crc.BurstDetected` | src/utils/crc.cpp:33-46 | Equal-length messages that differ only inside 2 (CRC-16) or 8 (CRC-64) consecutive bytes get different registers |
| `Crc.ChecksumDetectsBurst` | src/utils/crc.cpp:86-90 | So do the published checksums, final inversion included |
| `CrcBits.BitBurstDetected` | src/utils/crc.cpp:33-46 | Equal-length messages that differ only inside 16 (CRC-16) or 64 (CRC-64) consecutive bits, low bit of each byte first and wherever in a byte they start, get different registers |
| `CrcBits.ChecksumDetectsBitBurst` | src/utils/crc.cpp:86-90 | So do the published checksums |
| `CrcBits.AbsorbIsBits` | src/utils/crc.cpp:71-84 | Taking in bytes is taking in their bits one at a time, low bit first |
| `Crc.ModbusFrame` | src/utils/crc.cpp:48-51 | Appending a Modbus CRC low byte first drives the register to zero |
| `Crc.Xz64Frame` | src/utils/crc.cpp:86-90 | Appending a CRC-64/XZ low byte first leaves the same residue whatever the message |
| `CrcCheck.CheckValues` | src/utils/crc.cpp:33-109 | The digits 1 to 9 give the catalogues' check values, 0x4B37 and 0x995DC9BBDF1939FA |
| `Crc.Checksum.Current` | src/utils/crc.cpp:86-109 | The incremental object always stands at the one-shot checksum of everything absorbed |
| `GlobMatcher.GlobMatch` | src/utils/glob.cpp:214-220 | True if and only if the name matches the pattern's tokens, a star standing for any string |
| `GlobMatcher.MatchHere` | src/utils/glob.cpp:112-210 | The greedy loop with one remembered star decides the declarative relation, and terminates |
| `GlobSpec.LastStarSuffices` | src/utils/glob.cpp:112-210 | Any match an earlier star could still find, the last star finds too |
| `GlobSpec.FixedPrefix` | src/utils/glob.cpp:112-210 | Tokens without stars take exactly their number of characters |
| `GlobMatcher.TakeStar` | src/utils/glob.cpp:134-139 | Replacing the remembered star loses no match |
| `GlobMatcher.GoBack` | src/utils/glob.cpp:196-202 | Letting the remembered star take one more character loses no match |
| `GlobMatcher.ParseBracket` | src/utils/glob.cpp:48-107 | Builds exactly the specified ranges, negation and end position, or rejects |
| `GlobSpec.BracketBounds` | src/utils/glob.cpp:48-107 | A bracket expression ends right after a closing bracket and has an entry |
| `GlobMatcher.TryToken` | src/utils/glob.cpp:140-195 | One token against one character: the same verdict and next position as the token semantics |
| `GlobBracket.HarmlessPatternsAgree` | src/utils/glob.cpp:77-97 | For every name: a pattern matches as it would if each upper bound were read once, where no bound is a bracket or backslash, opens another range, or lies below its lower bound |
| `GlobBracket.BracketsAgree` | src/utils/glob.cpp:48-107 | Under the same condition both readings of a bracket expression have the same class and end |
| `GlobBracket.BracketBoundsIff` | src/utils/glob.cpp:48-107 | Where no other bound does harm, both readings agree if and only if no bound is an escaped bracket |
| `GlobBracket.EscapedBracketIsNoLiteral` | src/utils/glob.cpp:69-97 | So `[A-\\]]` matches "B]" and not "B", against the comment that an escaped bracket is literal |
| `GlobPatterns.EscapedMatchesItself` | src/utils/glob.cpp:185-206 | A text with its special characters behind backslashes matches itself and nothing else |
| `GlobPatterns.OrdinaryMatchesItself` | src/utils/glob.cpp:192-206 | So does a text without special characters |
| `GlobPatterns.LastBackslash` | src/utils/glob.cpp:185-206 | So does a backslash with nothing behind it |
| `GlobPatterns.StarMatchesBetween` | src/utils/glob.cpp:136-141 | A star between two such texts matches exactly the names that begin with one and end with the other, apart |
| `GlobPatterns.QuestionMarksCount` | src/utils/glob.cpp:145-151 | n question marks match exactly the names of n characters |
| `GlobPatterns.NegationComplements` | src/utils/glob.cpp:54-57 | The same bracket content with and without "!" or "^" in front never agrees on a character |
| `GlobPatterns.ListMatchesIff` | src/utils/glob.cpp:152-171 | A list of characters in brackets ("]" may come first) matches exactly those characters, and negated exactly the others |
| `GlobPatterns.RangeMatchesIff` | src/utils/glob.cpp:75-99 | A range of ASCII characters matches exactly the characters between its ends, and its upper end |
| `GlobPatterns.RangeAcrossIff` | src/utils/glob.cpp:152-171 | A range from ASCII to a byte above it matches that byte alone, since bytes are compared as signed |
| `GlobPatterns.UnclosedIsLiteral` | src/utils/glob.cpp:172-180 | A "[" that nothing closes stands for itself |
| `GlobPatterns.TokensMove` | src/utils/glob.cpp:112-210 | A pattern is read the same whatever stands in front of it |
| `Csv.Parse` | src/utils/csv.cpp:60-189 | The parser loop computes the specified state machine on every text and terminates although one branch consumes nothing |
| `Csv.Turn` | src/utils/csv.cpp:102-182 | A turn that consumes nothing leaves the closed-quote state, so it cannot repeat |
| `CsvGrammar.ParsedIff` | src/utils/csv.cpp:60-178 | For every text: the parser gives a table exactly if the text is written by the grammar as that table (lines ended by LF, CRLF or CR, fields cut at delimiters, bare or in quotes with doubled quotes and whatever follows the closing one); it refuses every other text |
| `CsvGrammar.PrintedByGrammar` | src/utils/csv.cpp:26-216 | The printer writes by that grammar: one line a row, each with the line end asked for, and quotes around exactly the fields with a delimiter, quote or line end in them |
| `CsvGrammar.OptionsRefusedIff` | src/utils/csv.cpp:64-71 | Every text is refused exactly for a NUL delimiter and for a quote that is the delimiter |
| `CsvGrammar.BomIsMark` | src/utils/csv.cpp:9-15 | The bytes skipped are U+FEFF in UTF-8 |
| `CsvRoundTrip.ParsePrinted` | src/utils/csv.cpp:191-216 | Parsing a printed table gives the table without its blank rows, unless the text happens to start with a BOM |
| `CsvRoundTrip.RoundTripIff` | src/utils/csv.cpp:191-216 | Read without skipping a BOM, every table survives printing and parsing if and only if no row is lost to blank-line rules |
| `CsvRoundTrip.RoundTripExactly` | src/utils/csv.cpp:60-216 | The whole condition for quoting switched on, where delimiter and quote are no line ends: a table comes back if and only if no row is lost and no first row starts with a skipped BOM |
| `CsvRoundTrip.HasBomIff` | src/utils/csv.cpp:11-15 | Printed text starts with a BOM exactly when its first row does |
| `CsvRoundTrip.FirstFieldBomIff` | src/utils/csv.cpp:11-15 | With delimiter and quote other than BOM bytes, exactly when the first field is printed bare and does |
| `CsvRoundTrip.SkippedBomShows` | src/utils/csv.cpp:72-74 | Skipping a BOM in printed text never gives the table back |
| `CsvCounts.RunCount` | src/utils/csv.cpp:60-189 | Whatever the text, parsing neither makes nor loses a character that is no separator and no quote |
| `CsvRoundTrip.BomLosesFirstField` | src/utils/csv.cpp:60-75 | Then the parser drops those three bytes |
| `CsvRoundTrip.ReadField` | src/utils/csv.cpp:41-56 | One printed field, bare or quoted and escaped, is read back in full |
| `CsvRoundTrip.ReadRow` | src/utils/csv.cpp:191-216 | One printed row is read back as that row, or as a blank line |
| `CsvRoundTrip.Serialize` | src/utils/csv.cpp:191-216 | The printer loop writes the specified text |
| `CsvRoundTrip.AppendField` | src/utils/csv.cpp:41-56 | One field, quoted when needed, with every quote doubled |
| `CsvRoundTrip.Quoted` | src/utils/csv.cpp:26-39 | Quotes are needed exactly for a delimiter, quote, CR or LF inside the field |
| `CsvRoundTrip.NulFieldIsRefused` | src/utils/csv.cpp:138-145 | With quoting disabled by a NUL quote, the printed table holding one NUL is refused by the parser, whether or not a BOM is skipped |
| `CsvNoQuotes.QuotingIsOffIff` | src/utils/csv.h:51-53 | With a NUL quote the parser behaves as if it had no quotes if and only if no field starts with NUL |
| `CsvNoQuotes.OpeningLosesNul` | src/utils/csv.cpp:138-145 | A field that starts with NUL opens a quoted field and loses that NUL |
| `CsvNoQuotes.AllLiteralIff` | src/utils/csv.h:51-53 | With a NUL quote every character but a line end is literal, as documented, only for texts without delimiters and without a field that starts with NUL |
| `CsvUnquoted.UnquotedIff` | src/utils/csv.cpp:26-216 | With quoting disabled, a table comes back through the parser if and only if no row is lost, no field holds a separator or starts with NUL, and no first row starts with a BOM that is skipped |
| `CsvBlankLines.SkippingIsFilter` | src/utils/csv.cpp:155-178 | Skipping blank lines drops exactly the rows without any field |
| `CsvBlankLines.DocumentedIff` | src/utils/csv.h:58-61 | The documented rule, read on the fields the parser makes of a line (all of them empty or blank), drops the same rows if and only if no row with fields has blank fields only |
| `CsvBlankLines.DelimiterLineIsKept` | src/utils/csv.cpp:155-178 | A line that is one delimiter is kept as two empty fields |
| `GraphemeScan.ClusterStep` | src/utils/grapheme.cpp:181-219 | The step from a position is the size of the cluster that the look-back rules give there |
| `GraphemeScan.ClusterCount` | src/utils/grapheme.cpp:221-231 | The count is the number of clusters of the look-back rules over the whole text |
| `GraphemeScan.ByteOffset` | src/utils/grapheme.cpp:233-245 | The offset of cluster number index, the end counting as one more start, or npos |
| `GraphemeScan.StepFromBoundary` | src/utils/grapheme.cpp:221-245 | From a boundary, one scan step leads to the next boundary of the whole text |
| `GraphemeScan.StepKeeps` | src/utils/grapheme.cpp:108-130 | The three automata stay in step with the look-back predicates |
| `GraphemeScan.DecisionIsRule` | src/utils/grapheme.cpp:132-177 | In step, the scan decides as the rules do |
| `GraphemeScan.GcbClass` | src/utils/grapheme.cpp:75-85 | Hangul arithmetic first, then the table |
| `GraphemeSpec.RestartAtBoundary` | src/utils/grapheme.cpp:181-219 | Read from a boundary on, the rules give the same later boundaries as over the whole text |
| `GraphemeSpec.RiParityLocal` | src/utils/grapheme.cpp:171-175 | Regional-indicator parity counted from a boundary equals the parity over the whole text |
| `GraphemeSpec.PictRunLocal` | src/utils/grapheme.cpp:118-130 | The pictograph look-back never reaches past a boundary |
| `GraphemeSpec.LinkerRunLocal` | src/utils/grapheme.cpp:108-116 | The linker look-back never reaches past a boundary |
| `GraphemeSpec.NoBoundaryBeforeExtender` | src/utils/grapheme.cpp:132-160 | No boundary before an extender or joiner unless a control precedes it |
| `GraphemeClusters.BoundaryIff` | src/utils/grapheme.cpp:132-183 | Inside a text no boundary falls exactly between CR and LF and between characters that are no controls and of which one is attached to the other: in one Hangul syllable, an extender, joiner or spacing mark, after a prepended character, a consonant behind a linker run, a joined pictograph, the second indicator of a pair |
| `GraphemeClusters.JoinedIsWhole` | src/utils/grapheme.cpp:168-170 | No boundary falls inside emoji joined by zero-width joiners, however many, extenders included |
| `GraphemeClusters.JoinerAlone` | src/utils/grapheme.cpp:112-123 | A joiner whose extenders do not go back to a pictograph does not keep one from starting a cluster |
| `GraphemeClusters.LinkerKeeps` | src/utils/grapheme.cpp:165-167 | A consonant is never cut off from a linker, whatever conjunct extenders stand between |
| `GraphemeClusters.NoLinkerCuts` | src/utils/grapheme.cpp:103-110 | Where the conjunct extenders do not go back to a linker, a consonant starts a cluster |
| `GraphemeClusters.FlagsArePairs` | src/utils/grapheme.cpp:171-175 | In a run of regional indicators boundaries fall exactly after every second one |
| `GraphemeClusters.SyllablesAreWhole` | src/utils/grapheme.cpp:145-155 | A stretch of Hangul characters is without a boundary exactly if it is one syllable block: leading consonants, a vowel part, final consonants |
| `GraphemeClusters.ComposedSyllables` | src/utils/grapheme.cpp:75-85 | The number of a composed syllable tells whether it has a final consonant |
| `GraphemeScan.ElementsFrom` | src/utils/grapheme.cpp:181-219 | Decoding from an element's offset gives the remaining elements |
| `RangeTable.Lookup` | src/utils/grapheme.cpp:57-73 | Binary search over an ordered table returns the value of the range that contains the code point, or the default |
| `RangeTable.Merge` | ci/gen_grapheme_tables.py:144-153 | For disjoint ranges: a sorted disjoint table for the same map, with no two neighbours left to join |
| `RangeTable.SortedValue` | ci/gen_grapheme_tables.py:146 | Sorting disjoint ranges keeps every code point's value |
| `RangeTable.JoinSameMap` | ci/gen_grapheme_tables.py:148-152 | Joining two adjacent equal ranges keeps the map |
| `Utf8RoundTrip.DecodesIff` | src/utils/utf8_codec.h:20-60 | Decoding succeeds with length n and code point c if and only if the shortest form of the scalar value c, n bytes long, stands there |
| `SchedulerModel.RunKeeps` | src/utils/async.cpp:37-201 | In every run each id has at most one table entry, and the table stays in due order with first-come ties |
| `SchedulerModel.PickTakesFirst` | src/utils/async.cpp:125-170 | A pick takes the first live entry if it is due; otherwise nothing live is due |
| `SchedulerModel.CancelIff` | src/utils/async.cpp:105-123 | Cancelling returns true exactly when the id has a live entry, and leaves it dead |
| `SchedulerModel.CancelledNeverRuns` | src/utils/async.cpp:105-123 | After cancel_task returned true, no later pick runs that id |
| `SchedulerModel.CancelAllNeverRuns` | src/utils/async.cpp:93-103 | After cancel_all no task submitted before is picked |
| `SchedulerModel.OneShotRunsOnce` | src/utils/async.cpp:37-58 | A one-shot task is picked at most once in any run |
| `SchedulerModel.PeriodicNeverDrifts` | src/utils/async.cpp:60-78 | The k-th run of a periodic task is due exactly k intervals after submission, and is not picked earlier |
| `SchedulerLive.StepAlive` | src/utils/async.cpp:42-171 | The table, ordered and with entries that cancelling left behind, stands for a plain set of live tasks: every step does to it exactly what its name says, and leaves the others |
| `SchedulerLive.SubmittedOnceStays` | src/utils/async.cpp:38-58 | A task submitted to run once is in the table, due at its submission plus its delay or at once, exactly until it is cancelled or picked |
| `SchedulerLive.SubmittedEveryStays` | src/utils/async.cpp:60-79 | A periodic task is in the table, for one period or another, exactly until it is cancelled or its callback asks to stop |
| `SchedulerLive.PicksIff` | src/utils/async.cpp:131-165 | A pick takes exactly the due live task that no live task comes before |
| `SchedulerLive.DueIsTaken` | src/utils/async.cpp:123-191 | Nothing starves: from its due time on, whatever is submitted, cancelled or finished, a task has been picked or cancelled once the worker has picked more often than the tasks before it can come first |
| `SchedulerLive.CountIsAlive` | src/utils/async.cpp:81-92 | pending_count is the number of live tasks |
| `AsyncSchedulerObject.AsyncScheduler.RunAfterMs` | src/utils/async.cpp:37-58 | Inserts one entry behind all entries due no later, under a new id |
| `AsyncSchedulerObject.AsyncScheduler.RunEveryMs` | src/utils/async.cpp:60-78 | Inserts a periodic entry, intervals below 1 counting as 1 |
| `AsyncSchedulerObject.AsyncScheduler.PendingCount` | src/utils/async.cpp:80-91 | Counts the entries not cancelled |
| `AsyncSchedulerObject.AsyncScheduler.CancelAllTasks` | src/utils/async.cpp:93-103 | Cancels every entry |
| `AsyncSchedulerObject.AsyncScheduler.CancelTask` | src/utils/async.cpp:105-123 | Marks the entry with this id, if it is live |
| `AsyncSchedulerObject.AsyncScheduler.PickReady` | src/utils/async.cpp:132-171 | One locked pass: drops cancelled entries at the front, takes the first due one, reinserts a periodic one |
| `AsyncSchedulerObject.AsyncScheduler.FinishTask` | src/utils/async.cpp:173-189 | A periodic callback that returned false erases its entry wherever it stands |
| `RateLimiter.WindowBound` | src/utils/async.cpp:223-247 | From any sound bucket, the permits granted to calls inside [t1, t2] total at most burst + rate * (t2 - t1) |
| `RateLimiter.WindowInRun` | src/utils/async.cpp:223-247 | In every run from every sound bucket, any contiguous slice of calls is granted at most burst + rate * the time it spans |
| `RateLimiter.WindowFromFresh` | src/utils/async.cpp:215-247 | So from the construction of a limiter on |
| `RateLimiter.GrantsArePaid` | src/utils/async.cpp:223-247 | Every run pays for its grants with tokens it had or has earned |
| `RateLimiter.LookingChangesNothing` | src/utils/async.cpp:276-281 | Any number of calls of available leaves every later answer unchanged |
| `RateLimiter.RefillTwice` | src/utils/async.cpp:223-233 | Refilling on the way equals refilling once |
| `RateLimiter.WaitSuffices` | src/utils/async.cpp:249-274 | For permits that fit the bucket, the computed wait is long enough without competitors |
| `RateWindows.GrantedIff` | src/utils/async.cpp:209-246 | For every history of calls: a request is granted if and only if it asks for nothing, or it and everything granted since the start, and since any earlier call, stay within the bucket size and what the rate gives for that time |
| `RateWindows.HoldsIff` | src/utils/async.cpp:222-246 | Likewise from any state of the bucket |
| `RateWindows.ServedAtFirst` | src/utils/async.cpp:249-274 | A blocked caller is served at the first of its turns at which its request, made then like any other, is granted |
| `RateWindows.DefaultsAreOne` | src/utils/async.cpp:211-217 | Rates and sizes that are not positive count as 1 |
| `RateWindows.WaitIsShort` | src/utils/async.cpp:264-270 | The computed wait is at most a millisecond longer than the deficit takes to earn |
| `RateLimiter.ServedIff` | src/utils/async.cpp:249-274 | A blocked request is ever served if and only if it does not exceed the bucket size |
| `RateLimiter.TooManyNeverGranted` | src/utils/async.cpp:235-247 | More permits than the bucket holds are never granted |
| `RateLimiter.Limiter.TryTake` | src/utils/async.cpp:235-247 | Refills, then takes the permits exactly when there are enough |
| `RateLimiter.Limiter.Acquire` | src/utils/async.cpp:249-274 | The blocking loop, other callers acting between its turns: served at the first turn with enough tokens, reporting the milliseconds waited; permits not above zero return at once |
| `RateLimiter.ServedInTwoTurns` | src/utils/async.cpp:249-274 | Alone, a request that fits the bucket is served at the second turn at the latest |
| `RateLimiter.WaitsForever` | src/utils/async.cpp:249-274 | A request above the bucket size is served at no turn, whatever others do |
| `RateLimiter.Limiter.Available` | src/utils/async.cpp:276-281 | Refills and reports the tokens |
| `BreakerModel.TripsIff` | src/utils/circuit_breaker.cpp:214-257 | A closed breaker trips exactly when the latest results since closing or reset, as many as the threshold, are all failures |
| `BreakerModel.CounterIsTrailingRun` | src/utils/circuit_breaker.cpp:176-257 | The failure counter is the length of the trailing run of failures |
| `BreakerModel.NoAdmissionWhileCooling` | src/utils/circuit_breaker.cpp:131-174 | Over any run with a monotone clock and no reset, nothing is admitted before the cool-down is over |
| `BreakerModel.ProbesAreBounded` | src/utils/circuit_breaker.cpp:131-212 | In a half-open episode admissions are at most the probe limit plus the successes recorded |
| `BreakerModel.AllProbesOutStaysShut` | src/utils/circuit_breaker.cpp:131-212 | A half-open breaker with all probes out admits nothing, whatever time passes, until a result is recorded or it is reset |
| `BreakerModel.EpisodeIsBounded` | src/utils/circuit_breaker.cpp:88-97 | Likewise counted from the call that opens the episode |
| `BreakerModel.ChangesAreCounted` | src/utils/circuit_breaker.cpp:65-86 | state_changes counts exactly the mode changes since construction or reset_stats, each one legal |
| `BreakerRuns.AdmittedIff` | src/utils/circuit_breaker.cpp:131-174 | After every run: a call is let through if and only if the breaker is closed, or has been open for the cool-down, or is half-open with fewer probes out than it may have |
| `BreakerRuns.NextMode` | src/utils/circuit_breaker.cpp:131-257 | After every run, where each call or result leads: half-open at the first question after the cool-down, back open at any failure, closed at the success that makes up the number, open at the failure that does, closed at a reset, and nowhere else |
| `BreakerRuns.StatisticsCount` | src/utils/circuit_breaker.cpp:131-212 | The statistics count calls let through and refused and results of both kinds since they were cleared |
| `CircuitBreakerObject.CircuitBreaker.AllowCall` | src/utils/circuit_breaker.cpp:131-174 | The method is the model's admission step, with the notice owed to the handler |
| `CircuitBreakerObject.CircuitBreaker.RecordSuccessResult` | src/utils/circuit_breaker.cpp:176-212 | The method is the model's success step |
| `CircuitBreakerObject.CircuitBreaker.RecordFailureResult` | src/utils/circuit_breaker.cpp:214-257 | The method is the model's failure step |
| `CircuitBreakerObject.CircuitBreaker.Execute` | src/utils/circuit_breaker.cpp:259-277 | One admission, and one result exactly if it was admitted; an exception is recorded as a failure and passed on |
| `CircuitBreakerObject.CircuitBreaker.ResetBreaker` | src/utils/circuit_breaker.cpp:303-326 | Back to Closed with cleared counters |
| `CircuitBreakerObject.CircuitBreaker.TransitionLocked` | src/utils/circuit_breaker.cpp:65-86 | Entering the same mode changes nothing; entering another clears the episode counters and counts the change |
| `WorkerPool.RunAccountsForEverySuite` | tools/tr_model.cpp:459-505 | When all workers have left, in any interleaving: each index claimed once, each selected suite run once with an outcome or skipped after a stop, unselected ones untouched, and one callback for each suite that ran while one was set |
| `WorkerOutcomes.OutcomesAreReported` | tools/tr_model.cpp:486-501 | In every interleaving: a suite that reported did so once, and its entry ends with that outcome and one call exactly if a callback was in force then; a wanted suite that did not was skipped |
| `WorkerOutcomes.StoppedIff` | tools/tr_model.cpp:493-497 | At the end the stop flag is up if and only if a stop was requested, or a suite failed or crashed while the run was not to keep going |
| `WorkerPool.JobsIff` | tools/tr_model.cpp:439-442 | As many workers as asked for, one at least, and no more than chosen suites |
| `WorkerPool.StepKeeps` | tools/tr_model.cpp:459-510 | Every atomic step of every worker, a stop request or a callback change keeps the pool invariant |
| `WorkerPool.LateStartsAreFew` | tools/tr_model.cpp:496-503 | After the step that raises the stop flag at most as many suites start as there are workers, one fewer if a failing worker raised it |
| `WorkerPool.StartsAfterStop` | tools/tr_model.cpp:473-480 | Once the flag is up, only workers already past their check can start a suite, each once |
| `WorkerPool.NextIsUntouched` | tools/tr_model.cpp:461-465 | The next index to claim is nobody's and its entry is fresh |
| `WorkerPool.WorkersDrain` | tools/tr_model.cpp:459-505 | Each step of a worker in its loop uses up work |
| `WorkerPool.RunsEnd` | tools/tr_model.cpp:459-505 | In any interleaving the workers take at most a fixed number of steps before all are gone |
| `RunStateObject.RunState.Start` | tools/tr_model.cpp:395-448 | Refused exactly while running or when nothing is selected; otherwise the fresh state of a run with the right number of workers |
| `RunStateObject.RunState.Choose` | tools/tr_model.cpp:403-408 | The indices collected are exactly the selected suites |
| `RunStateObject.RunState.WorkerLoopStep` | tools/tr_model.cpp:459-505 | One atomic operation of the loop body is the model's step |
| `RunStateObject.RunState.RequestStop` | tools/tr_model.cpp:507-510 | Raises the flag and nothing else |
| `UploadModel.StoredIsPrefix` | apps/lanshare.cpp:356-438 | Under any loss, repetition or reordering, writes that fail part of the way and sizes that cannot be read, every stored file stays a prefix of its source |
| `UploadChunks.WholeIffChunksInOrder` | apps/lanshare.cpp:397-438 | For a client cutting its file into fixed chunks, whatever the order, repetitions and failures: the file is whole if and only if, since the last delivery that began it anew because its size could not be read, no write of a due chunk stopped part of the way and all chunks occur in order among the deliveries that can land |
| `UploadChunks.CompletableIff` | apps/lanshare.cpp:404-412 | A source can be completed in chunks of c bytes if and only if it is empty or its last chunk starts below 2^31 |
| `UploadChunks.OneWritePassesTheLimit` | apps/lanshare.cpp:397-438 | At 2^31 - 1 bytes, any write of 2 bytes up to the 64 MiB the server takes (src/utils/http_server.cpp:22) answers 200 and passes 2^31; from there on no write whose file can be looked at changes anything |
| `UploadRecords.CompleteIsTruthful` | apps/lanshare.cpp:356-483 | Over runs in which any operation may fail: a complete record has the size and digest of its file where none of the breaking requests is met |
| `UploadRecords.TruthfulIff` | apps/lanshare.cpp:356-483 | For every request and every failure of the file, of reading its size or content, or of the index: complete records stay truthful if and only if the request is none of these: of a committed file an init that changes it, a delete or a write, where the file operation had its effect and the index was not updated or the write stopped; or a commit, taken by the index, that could not read the size of a nonempty file or its content |
| `UploadRecords.TruthfulThroughoutIff` | apps/lanshare.cpp:356-483 | Over any run: truthful at every moment if and only if no such request is met |
| `UploadRecords.StaleRecords` | apps/lanshare.cpp:382-395 | With the index failing, a new init answers 201 and a delete 200, and both leave the old complete record |
| `UploadRecords.WriteTruthfulIff` | apps/lanshare.cpp:397-438 | For writes: a truthful record stays so unless the write or its index update fails and some byte got in, or, where the size could not be read, the file was written anew with other content |
| `UploadRecords.CommitTruthfulIff` | apps/lanshare.cpp:440-466 | A commit breaks a truthful record if and only if the file is there, the index takes the record, and the size of a nonempty file or the content of one with a nonempty digest could not be read |
| `UploadRecords.UnreadableIsCommitted` | apps/lanshare.cpp:455-463 | A file that cannot be read is committed with an empty digest and answered 200 |
| `UploadRecords.WholeIffSizeMatches` | apps/lanshare.cpp:440-466 | Over runs in which operations may fail but nothing breaks: a complete record stands for the whole source exactly when its size is the source's |
| `UploadRecords.PartIsCommitted` | apps/lanshare.cpp:440-466 | Every proper part of a file can be committed as complete |
| `UploadRecords.ReinitialisedStandsIff` | apps/lanshare.cpp:369-376 | After an init with a source's size over any store, a run of writes leaves the file a prefix of that source if and only if the init did not see other bytes of the same size, or a write that could not read the size replaced them |
| `UploadRecords.StaleIsCommitted` | apps/lanshare.cpp:369-376 | Other bytes of the same size are kept and committed as the new source's |
| `UploadModel.RepeatIsRefused` | apps/lanshare.cpp:413-422 | A write that was applied gets 409 when repeated and changes nothing, if and only if its offset is not 0 or the size can be read |
| `UploadModel.LargeFilesStall` | apps/lanshare.cpp:404-412 | A matching offset can be sent exactly while the file is below 2^31 bytes; from there on writes change nothing, but one at offset 0 that cannot read the size |
| `UploadModel.RemoveStatus` | apps/lanshare.cpp:468-483 | A delete of a file that is not there answers 200; 404 takes a failing index and no file removed |
| `UploadRequests.AnswersMean` | apps/lanshare.cpp:356-483 | The answer of every handler to every request: 400 exactly for a bad name, size or offset, 409 for an offset that is not the received length, 404 for what is not there, 500 for what fails, and otherwise 201 or 200 |
| `UploadRequests.RefusalsChangeNothing` | apps/lanshare.cpp:356-483 | A refused request changes nothing, and a failed one nothing but its file |
| `UploadRequests.TakenRequests` | apps/lanshare.cpp:356-483 | What every request that is taken leaves of its file and its record |
| `UploadRequests.SafeNameStaysInside` | apps/lanshare.cpp:48-69 | A file of a safe name lies right inside the directory, under just that name |
| `UploadRequests.SafeNamesApart` | apps/lanshare.cpp:48-69 | Two safe names are never the same file |
| `UploadRequests.SafeNameIff` | apps/lanshare.cpp:48-69 | The names taken are exactly those of 1 to 200 letters, digits and four signs, but for the two that name directories |
| `UploadRaces.PrefixThroughoutIff` | apps/lanshare.cpp:413-424 | Requests for one file at the same time, their checks and writes interleaved in any way with inits, deletes and failures: the file is a prefix of its source at every moment if and only if every write begins it anew, adds nothing, or adds bytes the source also has at the file's end |
| `UploadRaces.OneAtATimeIsSafe` | apps/lanshare.cpp:413-424 | That holds whenever no request for the file is let past its check, and none empties it, while another is between its check and its write |
| `UploadRaces.DoubledIff` | apps/lanshare.cpp:413-424 | A write and its retransmission that are both checked before either writes are both added: the file is then a prefix only of a source that repeats those bytes there |
| `UploadRaces.AtOnceIsPut` | apps/lanshare.cpp:397-438 | A check with its write right behind it is the write request of the sequential model |
| `FileApiObject.FileApi.Write` | apps/lanshare.cpp:397-438 | Applied exactly when the name is safe, the offset equals the size it sees and the file write succeeds; then the body is appended, or is all the file where the size could not be read. 400 and 409 change nothing |
| `FileApiObject.FileApi.Init` | apps/lanshare.cpp:356-395 | Keeps content exactly when the declared size is positive and the one it sees, otherwise empties the file |
| `FileApiObject.FileApi.Commit` | apps/lanshare.cpp:440-466 | 404 without a file, otherwise a complete record with the size and digest of what is there; 0 and an empty digest stand for what could not be read |
| `FileApiObject.FileApi.Remove` | apps/lanshare.cpp:468-483 | Removes file and row; 404 only if both removals fail |
| `FileApiObject.FileApi.Status` | apps/lanshare.cpp:329-354 | The received length it reports is an offset at which the next write is accepted, below the offset limit, if and only if that write sees the same size |
| `Base64.Encode` | src/utils/encoding.cpp:59-90 | The loop writes the specified letters and padding for every byte string |
| `Base64.Decode` | src/utils/encoding.cpp:97-131 | Accepts exactly the specified texts and returns their bytes |
| `Base64Spec.DecodeUndoesEncode` | src/utils/encoding.cpp:59-131 | Decoding the encoding of any byte string gives it back |
| `Base64Spec.EncodeUndoesDecode` | src/utils/encoding.cpp:97-131 | A text that decodes is the encoding of what it decodes to |
| `Base64Spec.AcceptedIffEncoding` | src/utils/encoding.cpp:97-131 | The accepted texts are exactly the encodings |
| `Base64Spec.LastBits` | src/utils/encoding.cpp:127-130 | The dropped tail bits of an encoding are zero |
| `CodecTables.Base64Letters` | src/utils/encoding.cpp:9-90 | Letter j of an encoding is, from the printed alphabet, digit j % 4 in base 64 of its group of three bytes as one number; then as many padding characters as make the length a multiple of four |
| `Base64.Pushed` | src/utils/encoding.cpp:118-121 | The 32-bit buffer may drop high bits: its low bits are always the pending ones |
| `Base64.Popped` | src/utils/encoding.cpp:122-125 | The byte taken out of the buffer is the one the letters spell |
| `Base64Url.Encode` | src/utils/encoding.cpp:135-153 | The standard encoding with both letters replaced, and the padding kept or stripped |
| `Base64Url.Decode` | src/utils/encoding.cpp:166-190 | Accepts exactly the texts that complete to standard Base64 |
| `Base64Url.UrlDecodeUndoesEncode` | src/utils/encoding.cpp:135-190 | Decoding undoes encoding, padded or not |
| `Base64Url.UrlEncodeUndoesDecode` | src/utils/encoding.cpp:166-190 | A text that decodes is the unpadded encoding of its bytes up to padding and the two standard letters |
| `Base64Url.CanonicalIff` | src/utils/encoding.cpp:135-190 | An accepted text is what the encoder writes, padded or not, if and only if it has none of the two standard letters and no incomplete padding |
| `Base64Url.NotCanonical` | src/utils/encoding.cpp:166-190 | "QQ=" and "+w" are accepted all the same |
| `Hex.Encode` | src/utils/encoding.cpp:194-207 | Two digits a byte in the chosen case |
| `Hex.Decode` | src/utils/encoding.cpp:214-230 | Accepts exactly even-length texts of hex digits in either case |
| `Hex.DecodeUndoesEncode` | src/utils/encoding.cpp:194-230 | Decoding undoes encoding in either case |
| `Hex.EncodeUndoesDecode` | src/utils/encoding.cpp:194-230 | Encoding what a text decodes to gives the text in lower case |
| `CodecTables.HexLetters` | src/utils/encoding.cpp:194-207 | A byte is the digit of its high half and then that of its low half, from the printed digits of the case asked for |
| `UrlEncode.Encode` | src/utils/encoding.cpp:234-252 | The loop writes the specified form encoding |
| `UrlEncode.Decode` | src/utils/encoding.cpp:254-273 | The loop decodes escapes and keeps a percent sign that starts none |
| `UrlEncode.UrlDecodeUndoesEncode` | src/utils/encoding.cpp:234-273 | Decoding undoes encoding for every byte string |
| `CodecTables.FormLetters` | src/utils/encoding.cpp:234-252 | Letters, digits and four signs stand for themselves, a space for a plus, any other byte for an escape in capital digits |
| `Base32.Encode` | src/utils/base32.cpp:28-52 | Two nested loops over a 32-bit buffer write the digits in base 32 of the bytes' number, then padding |
| `Base32.Decode` | src/utils/base32.cpp:59-103 | Strict: accepts exactly the specified texts. Lenient: refuses only more than six padding characters in a row of letters, and reads the letters alone |
| `Base32Spec.DecodeUndoesEncode` | src/utils/base32.cpp:28-103 | Strict decoding undoes encoding for every byte string |
| `Base32Spec.AcceptedIff` | src/utils/base32.cpp:59-103 | The strictly accepted texts: the letters of some byte string in either case, perhaps one spare zero letter, then at most six padding characters |
| `Base32Spec.CanonicalIff` | src/utils/base32.cpp:59-103 | An accepted text is the encoding of some byte string if and only if it is in upper case, fully padded, and has no letter that completes no byte |
| `Base32Spec.AcceptedSpells` | src/utils/base32.cpp:98-102 | A strictly decoded text spells its bytes up to case and one spare letter |
| `CodecTables.Base32Letters` | src/utils/base32.cpp:9-52 | Letter i of an encoding is, from the printed alphabet, a digit in base 32 of the bytes as one number, the highest first, with zero bits that complete the last letter |
| `CodecTables.NumberPlaces` | src/utils/base32.cpp:28-52 | In that number every byte counts 256 to the number of bytes after it |
| `Base32Spec.NotCanonical` | src/utils/base32.cpp:59-103 | "A" is accepted, decodes to nothing and is no encoding |
| `Base32.NoiseIsIgnored` | src/utils/base32.cpp:66-84 | Lenient decoding gives the bytes whatever stands between their letters and whatever their case, if and only if there are never seven padding characters without a letter between them |
| `Base32.OutLetter` | src/utils/base32.cpp:36-42 | Taking five bits out of the buffer keeps letters and buffer together equal to the bytes read |
| `Base32.OutByte` | src/utils/base32.cpp:92-96 | Taking eight bits out keeps bytes and buffer together equal to the letters read |
| `Charset.ValidUtf16` | src/utils/charset.cpp:47-69 | Accepts a byte string if and only if it is the UTF-16 encoding, in that byte order, of some sequence of scalar values |
| `Charset.WellFormedIff` | src/utils/charset.cpp:44-69 | Well-formed means an even length and surrogates in pairs |
| `Charset.EncodesOne` | src/utils/charset.cpp:44-69 | A byte string encodes at most one sequence of scalar values |
| `Charset.DecodeUndoesEncode` | src/utils/charset.cpp:44-69 | Scalar values are read back from their units |
| `Charset.EncodeUndoesDecode` | src/utils/charset.cpp:44-69 | Paired units are the encoding of the scalars read from them |
| `Charset.BytesRoundTrip` | src/utils/charset.cpp:143-165 | Bytes to units to bytes is the identity on even length |
| `Charset.UnitsRoundTrip` | src/utils/charset.cpp:143-165 | Units to bytes to units is the identity |
| `Charset.BytesToWide` | src/utils/charset.cpp:143-151 | The buffer receives the units in order |
| `Charset.WideToBytes` | src/utils/charset.cpp:153-165 | The buffer receives each unit's two bytes in the given order |
| `CodecTables.SurrogatesMean` | src/utils/charset.cpp:44-69 | A character above the basic plane is a high and a low surrogate, ten bits each of what it is above it |
| `CodecTables.UnitBytesMean` | src/utils/charset.cpp:153-165 | A unit's low byte is first exactly in little-endian order |

## Left out

- Compression and block functions, with their constants: parameters of the models. Of published test values only the CRCs' are proved.
- CRC-32, Adler-32, gzip, AES-GCM, iconv and Win32 conversion, SQLite, HTTP, JSON and logging: other people's code.
- OS access, directory traversal in `glob`, Windows case folding, configuration, argument parsing, native windows and consoles.
- Threads, mutexes and condition variables: a locked region, an atomic operation or a request handler is one step. A write is two steps in `UploadRaces`, its check and its file operation, and one in the other upload modules, whose theorems hold for requests handled one after the other.
- Clocks: times are parameters, assumed monotone only where a theorem says so; 64-bit overflow of times, ids and counters other than the digests' is not modelled.
- Floating point: tokens and rates are reals, so rounding of the bucket is not modelled.
- The published Unicode tables: the grapheme theorems hold for every ordered table with `Tables.Consistent` (pictographs are never controls or joiners, linkers never controls, conjunct extenders are extenders or joiners).
- GB9c as published: the library leaves out the leading consonant, and so do the rules here.
- The output block counter of BLAKE3 is a natural number; output past 2^64 blocks is not modelled.
- Blake3Hasher.Blake3.Update: limited to messages whose chunks a 64-bit counter can number.
- DigestStream.Digest.Finish: says nothing of SHA-512 after an update of 2^61 bytes or more, where the counter is wrong.
- CsvRoundTrip.RoundTripExactly: leaves out a delimiter or quote that is CR or LF, which the option check lets pass; a NUL quote is in `UnquotedIff`.
- CsvUnquoted.UnquotedIff: leaves out a delimiter that is CR or LF.
- CsvNoQuotes.AllLiteralIff: leaves out a delimiter that is CR or LF, where literal delimiters mean nothing.
- GlobBracket.HarmlessPatternsAgree: one direction only (both for escaped brackets, in `BracketBoundsIff`); any other harmful bound may add characters the class has anyway, so both readings can agree by chance.
- RateLimiter.Limiter.Acquire: the times at which a waiting caller wakes and the calls of others in between are inputs.
- AsyncSchedulerObject.AsyncScheduler.PickReady: callbacks run outside the lock and are not modelled beyond their return value.
- RunStateObject.RunState.WorkerLoopStep: running the suite's process and reading its report are one step with a given outcome; snapshots and timings are left out.
- FileApiObject.FileApi.Write: the two looks at the size, before and after, are taken to go alike, and reading the old record from the index not to fail; the record a write leaves is never complete, so no theorem about complete records depends on either.
- UploadChunks.CompletableIff: the server's own limit on a body's length, 64 MiB by default, is left out, so it speaks of longer chunks too.
- UploadRaces.PrefixThroughoutIff: a file operation is one step; records are left out.
- CsvGrammar.ParsedIff: leaves out a delimiter or quote that is CR or LF.
- Blake3Collisions.HashesCollide: equal hashes of one mode and key; two keys of one mode are left out.
- DigestCollisions.HashesCollide: takes the block function's words to fit their bytes, and messages below 2^61 bytes, or 2^125 for SHA-512.
- FileApiObject.FileApi.Init: a request body is either not JSON or a declared size; time stamps in the index are left out.
- Download, bundle, listing and clean-up of the share server; cron expressions, timers and the library's other utilities.
