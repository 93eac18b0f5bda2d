# Verified models of the codec, stream, checksum and session cores

These modules model the parts of a C++ game-server library (and of the C, C# and ACE sources it
carries) whose correctness is hard to see from the code, and prove what each is for. The model
is imperative where the source is: methods over arrays and objects with the source's branches,
tests and constants, each proved against a specification function, and the properties proved
about those functions. `dafny verify dfyconfig.toml` checks everything.

**LZF codec.** `LzfFormat` is the format as tokens and a reference decoder, a fold that copies
octet by octet; it accepts exactly the encodings of well-formed tokens. `LzfDecompress` is
`lzf_decompress`, equal to that fold on every input. `LzfEmit` is the output side the two C
encoders share, with the back-patched control octets; `LzfCompress`, `LzfCompressBest` and
`Clzf` are the three encoders, `LzfWorstCase` the inputs that cost them the most. Tables, hash
functions and uninitialised state are arbitrary, so matches are justified by content alone.
`LzfParse` says which matches an encoder must not miss: the two fast ones take the latest
candidate their table can hold, the best one takes the longest match in the window.
`LzfRoundTrip` runs every encoder against every decoder. `LzfFile` is the block framing of the command-line tool over descriptors that read and
write partially or fail.

**Packet stream.** `IoBuffer` is the ring buffer, refining a bounded FIFO. `PacketStream` frames
packets out of it with head rollback: whatever the chunks and the moments of polling, the
packets delivered are a prefix of the packets sent. `EncryptionXor`, `PacketValues` and
`SfPacket` are the packet itself; `Conversation` joins all of it, from lists of values on one
side to the same lists on the other.

**CRCs.** `Crc16` is the bitwise and the table CRC of `crc.cpp`, with burst and odd-error
detection for messages of any length. `Crc32` covers the reflected CRC-32 of `SFFastCRC` and ACE
and the slicing tables of `7zcrc.cpp`; `CrcCcitt` the 16-bit ACE functions over
`Reflected16`. `CrcFold` holds what they share.

**Gather writes.** `GatherWrite` is `write_n`, `send_n`, `writev_n` and `sendv_n_i` against an
operating system that takes any part of what it is offered.

**Session ids.** `IdMap` is the id queue, the id map and the manager's locked steps.

`LzfRepeat` is about repetitions in the input. `Sequences` holds an optional value, the
concatenation of parts and `strlen`. `OneByte` is one fact about bytes.

## Where the code and its documentation differ

- The format comment (ThirdParty/liblzf/lzf_c.c:85-92) speaks of literal runs up to 33 and
  distances up to 4096. The code writes runs of at most 32 and distances up to 8192.
- ThirdParty/liblzf/lzf.h:85-94 promises that an output of `LZF_MAX_COMPRESSED_SIZE(n)` octets is
  enough for any input. No encoding is ever longer, but the encoders give up early: the tests at
  ThirdParty/liblzf/lzf_c.c:168-170 and 273 ask for room that may not be used. For each encoder
  `LzfRoundTrip.Enough` is exactly what it takes: enough for every input, and one octet less is
  not enough for the input `LzfWorstCase.Costliest`. For `lzf_compress` with the hash it ships
  with, that is more than the macro for every length.
- An empty string written to a packet is silently dropped (EngineLayer/SFPacket.cpp:280), so a
  list of values does not always read back. `PacketValues.WrittenReadsBackIff` says exactly when
  it does.
- `compress_fd` takes a failed read for the end of its input and returns 0
  (ThirdParty/liblzf/lzf.c:194); `LzfFile.CompressFd` keeps that
  and names what is lost.

## Model

| member | source | states |
|---|---|---|
| `LzfFormat.CopyBack` | ThirdParty/liblzf/lzf_d.c:165-171 | The octet-by-octet copy appends exactly n octets and leaves everything before them alone |
| `LzfFormat.CopyBackPeriodic` | ThirdParty/liblzf/lzf_d.c:165-171 | Every copied octet equals the one dist places before it, also where source and destination overlap |
| `LzfFormat.CopyBackUnique` | ThirdParty/liblzf/lzf_c.c:184-202 | The converse: any periodic continuation of the output is what the copy produces, so a match found on content is a valid reference |
| `LzfFormat.CopyBackDisjoint` | ThirdParty/liblzf/lzf_d.c:159-164 | When the distance is at least the length, the octet loop and one block move give the same output |
| `LzfFormat.AppendToken` | ThirdParty/liblzf/lzf_c.c:207-222 | Writing one more token appends its octets and applies it to the data the earlier tokens stand for |
| `LzfFormat.DecodeToken` | ThirdParty/liblzf/lzf_d.c:64-189 | A token that is accepted consumes between one octet and all that is left, strictly grows the output and respects its limit |
| `LzfFormat.DecodeFrom` | ThirdParty/liblzf/lzf_d.c:64-192 | Decoding never shrinks the output, never passes its limit, and strictly grows it when there is input |
| `LzfFormat.DecodeOneToken` | ThirdParty/liblzf/lzf_d.c:66-188 | The decoder reads back any single well-formed token from in front of any continuation and consumes exactly its octets |
| `LzfFormat.DecodeEncodedPrefix` | ThirdParty/liblzf/lzf_d.c:64-192 | Decoding an encoded token sequence with anything behind it continues from exactly the data of those tokens |
| `LzfFormat.DecodeInvertsEncode` | ThirdParty/liblzf/lzf.h:71-73 | Whatever well-formed tokens an encoder writes, in whatever way it chose them, decode to the data they stand for as soon as it fits |
| `LzfFormat.TokenOfStep` | ThirdParty/liblzf/lzf_d.c:66-188 | Every accepted decoding step is the inverse of writing one well-formed token |
| `LzfFormat.TokensOfAccepted` | ThirdParty/liblzf/lzf_d.c:64-192 | From any accepted string the tokens can be recovered |
| `LzfFormat.DecodeAcceptsExactlyEncodings` | ThirdParty/liblzf/lzf_d.c:64-192 | The decoder accepts a string and returns x if and only if it is the encoding of well-formed tokens (runs 1..32, matches 3..264, distances 1..8192, never before the start) that stand for x, and x fits |
| `LzfFormat.FullMeansTooSmall` | ThirdParty/liblzf/lzf_d.c:132-136 | The decoder reports a full output exactly when a larger output would change its result |
| `LzfFormat.TruncatedMeansCutOff` | ThirdParty/liblzf/lzf_d.c:78-84 | It reports a truncated input exactly when it fails and more input could change that; a bad reference and a full output are final |
| `LzfFormat.TokenLayout` | ThirdParty/liblzf/lzf_c.c:85-92 | The octets of a token: 000LLLLL and the run of L + 1; LLLooooo oooooooo for L + 2 octets at o + 1; a length octet of L - 7 between when the three bits are full |
| `LzfDecompress.CopyLiterals` | ThirdParty/liblzf/lzf_d.c:92-102 | Entering the fall-through switch at label n copies exactly the next n input octets |
| `LzfDecompress.CopyOctets` | ThirdParty/liblzf/lzf_d.c:167-170 | The do-while loop performs the reference copy |
| `LzfDecompress.CopyBlock` | ThirdParty/liblzf/lzf_d.c:159-164 | The memcpy branch performs the reference copy, because it is taken only when the areas are disjoint |
| `LzfDecompress.CopyReference` | ThirdParty/liblzf/lzf_d.c:154-186 | All three forms of the copy (labels 0..9, block, octet loop) agree with the reference copy |
| `LzfDecompress.LiteralRun` | ThirdParty/liblzf/lzf_d.c:66-104 | One literal token: same result, same consumed octets and same error as the reference step |
| `LzfDecompress.BackReference` | ThirdParty/liblzf/lzf_d.c:105-188 | One back reference: same result, same consumed octets and same error as the reference step, with the tests in the order of the code |
| `LzfDecompress.Decompress` | ThirdParty/liblzf/lzf_d.c:55-193 | On every input and every limit the in-place decoder is the reference fold: 0 exactly when the fold rejects, otherwise the buffer holds the data; errno is E2BIG exactly when a larger output would change the result and EINVAL for every other failure; an empty input gives 0 whatever octet follows it in memory |
| `LzfDecompress.CapacityOnlyLimits` | ThirdParty/liblzf/lzf_d.c:132-136 | A larger output buffer never changes a result, and one as large as the data is enough |
| `LzfEmit.RunStops` | ThirdParty/liblzf/lzf_c.c:172-173 | Closing a run of 1..32 octets keeps the written octets an exact encoding of the consumed input; a full run has paid for its control octet |
| `LzfEmit.ReferenceCovers` | ThirdParty/liblzf/lzf_c.c:207-220 | Emitting a match keeps the encoding exact, and at least 4/32 of an octet is saved for good |
| `LzfEmit.PatchStopsRun` | ThirdParty/liblzf/lzf_c.c:172-173 | The store to op[-lit-1] turns the reserved octet into the control octet of the pending run, or undoes an empty run, and disturbs nothing else |
| `LzfEmit.StopRun` | ThirdParty/liblzf/lzf_c.c:172-173 | After the patch the output up to op is the encoding of everything consumed so far |
| `LzfEmit.PutLiteral` | ThirdParty/liblzf/lzf_c.c:263-269 | One more literal keeps the loop invariant (finished output plus pending run decode to exactly the consumed prefix), and the run restarts at 32 |
| `LzfEmit.StoreBackRef` | ThirdParty/liblzf/lzf_c.c:210-220 | The two or three octets stored are the encoding of that distance and length |
| `LzfEmit.PutBackRef` | ThirdParty/liblzf/lzf_c.c:207-222 | A back reference and the start of the next run re-establish the loop invariant |
| `LzfEmit.PutMatch` | ThirdParty/liblzf/lzf_c.c:172-222 | Stop run, back reference and new run together keep the invariant, and the exact number of octets used is known, inside the buffer once the capacity test was passed |
| `LzfEmit.SomethingWritten` | ThirdParty/liblzf/lzf_c.c:273-290 | When all input is consumed the result is not empty, within LZF_MAX_COMPRESSED_SIZE, and encodes the whole input |
| `LzfEmit.WrittenSoFar` | ThirdParty/liblzf/lzf_c.c:172-173 | At the head of the loop the output and the pending run are together the encoding of the consumed input, of known size |
| `LzfEmit.MarksOfLiteral` | ThirdParty/liblzf/lzf_c.c:263-269 | One literal marks one octet and keeps the room tests of earlier matches |
| `LzfEmit.MarksOfMatch` | ThirdParty/liblzf/lzf_c.c:168-224 | A match marks its octets and records the room test it passed |
| `LzfEmit.Finish` | ThirdParty/liblzf/lzf_c.c:273-290 | The last literals and the last patch stay inside out_len and complete the encoding of the whole input |
| `LzfParse.OneMarkPerOctet` | ThirdParty/liblzf/lzf_c.c:141-271 | Every octet of the input is a literal, the first octet of a match or an inner one, once |
| `LzfParse.TabledEnters` | ThirdParty/liblzf/lzf_c.c:145-147 | A table in which each position replaces the earlier one under its key answers with the latest |
| `LzfParse.TabledByMatch` | ThirdParty/liblzf/lzf_c.c:229-244 | A match enters its first octet and its last two, and nothing between |
| `LzfParse.LiteralIsGreedy` | ThirdParty/liblzf/lzf_c.c:149-161 | Where the latest entry under the key of the three octets lies in the window, is not the first octet and shares them, no literal may be written |
| `LzfParse.MatchIsGreedy` | ThirdParty/liblzf/lzf_c.c:161-224 | A match is always with that entry and cannot be made longer |
| `LzfParse.OnlyCollisionsHide` | ThirdParty/liblzf/lzf_c.c:145-161 | An earlier repetition that was entered is passed over only when a later entry with other octets has taken its key |
| `LzfParse.RepetitionIsMatched` | ThirdParty/liblzf/lzf_c.c:149-161 | Three octets that repeat those one place before are never literals, except in the last octets |
| `LzfParse.GreedyPacks` | ThirdParty/liblzf/lzf_c.c:141-271 | In equal octets only the first two and the last few are literals, and every match but the last is 263 octets or more |
| `LzfParse.LongestPacks` | ThirdParty/liblzf/lzf_c_best.c:84-201 | The same for the parse that searches the whole window |
| `LzfParse.FewSingles` | ThirdParty/liblzf/lzf_c.c:263-287 | The literals among equal octets number at most two and the margin |
| `LzfParse.PackedSize` | ThirdParty/liblzf/lzf_c.c:210-220 | Such a parse takes three octets for every 263, two for each literal and three more |
| `LzfParse.EqualOctetsAreSmall` | ThirdParty/liblzf/lzf_c.c:94-291 | Equal octets, n of them, are encoded in at most 3n/263 octets and a constant |
| `LzfCompress.MatchLength` | ThirdParty/liblzf/lzf_c.c:163-205 | The unrolled and the plain match loops together find a true repetition of 3..264 octets inside the input that ends at the first mismatch or at the limit |
| `LzfCompress.Probe` | ThirdParty/liblzf/lzf_c.c:145-147 | The table answers with what the slot of the next three octets held, that slot holds the new position afterwards, and nothing else changes |
| `LzfWorstCase.DigitsDoNotRepeat` | ThirdParty/liblzf/lzf_c.c:149-161 | In the digits of the costliest input no three octets repeat within the window of 8192 |
| `LzfWorstCase.CostliestIsCostly` | ThirdParty/liblzf/lzf_c.c:149-161 | For every length from four there is an input in which nothing repeats within the window but its last three octets, which repeat their predecessors |
| `LzfCompress.IdxUsesThreeOctets` | ThirdParty/liblzf/lzf_c.c:54-63 | The shipped hash, a wrapping 32-bit product shifted and masked, depends on the last three octets in hval alone |
| `LzfCompress.NextRolls` | ThirdParty/liblzf/lzf_c.c:145-146 | hval, never masked, always ends in the two octets at ip, and a hash of three octets sees exactly the three octets at ip |
| `LzfCompress.MatchesOnlyAtTheEnd` | ThirdParty/liblzf/lzf_c.c:149-161 | On the costliest inputs, under any hash of three octets and any initial table, the candidate is accepted at exactly one position, three octets before the end |
| `LzfCompress.PacedByLiteral` | ThirdParty/liblzf/lzf_c.c:257-270 | The exact room used on the costliest inputs, the octets in hval and the table entry of the previous position are kept through a literal |
| `LzfCompress.PacedByMatch` | ThirdParty/liblzf/lzf_c.c:161-224 | The one match of the costliest inputs leaves them needing exactly Needed octets |
| `LzfCompress.RoomInside` | ThirdParty/liblzf/lzf_c.c:168-170 | When the encoder gives up inside the loop the output was smaller than Needed |
| `LzfCompress.RoomAtTheEnd` | ThirdParty/liblzf/lzf_c.c:273-274 | The final test asks for at most Needed octets, and for exactly that on the costliest inputs |
| `LzfCompress.Rehash` | ThirdParty/liblzf/lzf_c.c:229-244 | The end of a match enters its last two positions and leaves hval ready for the next |
| `LzfCompress.KeysAreOfThree` | ThirdParty/liblzf/lzf_c.c:145-146 | Equal octets have equal slots |
| `LzfCompress.LiteralChosen` | ThirdParty/liblzf/lzf_c.c:257-270 | Writing a literal keeps the parse greedy and the table its record |
| `LzfCompress.MatchChosen` | ThirdParty/liblzf/lzf_c.c:161-255 | So does a match |
| `LzfCompress.StopsAt` | ThirdParty/liblzf/lzf_c.c:168-170 | When the encoder gives up, what it has written is a greedy parse of a prefix and comes within four octets of out_len |
| `LzfCompress.EmitMatch` | ThirdParty/liblzf/lzf_c.c:161-224 | A match on content is written with the invariant kept |
| `LzfCompress.MacroFallsShort` | ThirdParty/liblzf/lzf.h:85-94 | Needed lies strictly above LZF_MAX_COMPRESSED_SIZE for every length, by at most three |
| `LzfCompress.Compress` | ThirdParty/liblzf/lzf_c.c:94-291 | For every input, hash function, initial table and out_len: a non-zero result is the encoding of well-formed tokens that stand for exactly the input, at most LZF_MAX_COMPRESSED_SIZE octets long; every store lands in the buffer; no input is given up when out_len is at least Needed(n); under every hash of three octets the costliest inputs are given up whenever it is less, and the tokens are those of the greedy parse (no usable candidate is passed over, every match is maximal, a run that another run follows is full); it gives up only with less than five octets to spare |
| `LzfCompressBest.State.constructor` | ThirdParty/liblzf/lzf_c_best.c:77-80 | STATE is used uninitialised: nothing is known of its contents |
| `LzfCompressBest.Extend` | ThirdParty/liblzf/lzf_c_best.c:109-112 | The extension ends at the first mismatch or at the limit, even though it may look one octet past the input |
| `LzfCompressBest.Link` | ThirdParty/liblzf/lzf_c_best.c:97-99 | The old head of the chain comes back; the position becomes the head, and its difference to the old one, cut to 16 bits, is recorded |
| `LzfCompressBest.Older` | ThirdParty/liblzf/lzf_c_best.c:121-122 | Each non-zero difference strictly lowers p, so a chain search ends, and above the first 64 KB it never wraps below zero |
| `LzfCompressBest.MismatchBounds` | ThirdParty/liblzf/lzf_c_best.c:104-107 | A candidate that differs at best_l cannot be longer than the best so far |
| `LzfCompressBest.Consider` | ThirdParty/liblzf/lzf_c_best.c:104-119 | One candidate: the best length never falls and is at least the longest match this candidate allows |
| `LzfCompressBest.Search` | ThirdParty/liblzf/lzf_c_best.c:101-123 | For every content of first and prev the search ends, returns a true repetition inside the window or none, and no candidate on the chain offers a longer one within the limit |
| `LzfCompressBest.LinkKeeps` | ThirdParty/liblzf/lzf_c_best.c:97-99 | Linking a position keeps every chain whole over the window: each position leads to the last one before with the same hash |
| `LzfCompressBest.ChainReaches` | ThirdParty/liblzf/lzf_c_best.c:101-123 | A chain reaches every earlier position of the window with the same hash, whatever the tables held at first |
| `LzfCompressBest.WindowIsSearched` | ThirdParty/liblzf/lzf_c_best.c:101-123 | So the search sees every position of the window that starts with the same three octets |
| `LzfCompressBest.LiteralIsLongest` | ThirdParty/liblzf/lzf_c_best.c:186-200 | A literal is written only when its three octets stand nowhere in the window |
| `LzfCompressBest.MatchIsLongest` | ThirdParty/liblzf/lzf_c_best.c:125-163 | No position of the window offers a longer match than the one taken |
| `LzfCompressBest.Fill` | ThirdParty/liblzf/lzf_c_best.c:168-180 | Every position inside a match joins its chain |
| `LzfCompressBest.Find` | ThirdParty/liblzf/lzf_c_best.c:88-123 | One position is linked and its whole chain searched |
| `LzfCompressBest.TakeMatch` | ThirdParty/liblzf/lzf_c_best.c:125-183 | The match is written and everything the loop keeps is kept |
| `LzfCompressBest.StopsAt` | ThirdParty/liblzf/lzf_c_best.c:130-132 | When the encoder gives up, what it has written comes within four octets of out_len |
| `LzfCompressBest.NothingBefore` | ThirdParty/liblzf/lzf_c_best.c:101-123 | On the costliest inputs the search finds nothing before the last three octets, whatever the tables hold |
| `LzfCompressBest.MatchAtTheEnd` | ThirdParty/liblzf/lzf_c_best.c:101-123 | There the head of the chain is the previous position and the search finds its match |
| `LzfCompressBest.PacedByLiteral` | ThirdParty/liblzf/lzf_c_best.c:186-200 | The exact room used on the costliest inputs is kept through a literal |
| `LzfCompressBest.PacedByMatch` | ThirdParty/liblzf/lzf_c_best.c:125-163 | The one match of the costliest inputs leaves them needing exactly Needed octets |
| `LzfCompressBest.RoomInside` | ThirdParty/liblzf/lzf_c_best.c:130-132 | When the encoder gives up inside the loop the output was smaller than Needed |
| `LzfCompressBest.RoomAtTheEnd` | ThirdParty/liblzf/lzf_c_best.c:203-204 | The final test asks for at most Needed octets, and for exactly that on the costliest inputs |
| `LzfCompressBest.CompressBest` | ThirdParty/liblzf/lzf_c_best.c:61-207 | For every content of STATE and every hash: exact encoding of the input, size bound, stores inside the buffer, never 0 when out_len is at least Needed(n), and 0 on the costliest inputs whenever it is less; no three octets that stand in the window are left as a literal and every match is the longest in the window; it gives up only with less than five octets to spare |
| `Clzf.FlushRun` | ThirdParty/liblzf/cs/CLZF.cs:202-209 | The late flush, counting lit up from -lit to 0, writes one literal token |
| `Clzf.MatchLength` | ThirdParty/liblzf/cs/CLZF.cs:198-200 | The match is a true repetition, maximal up to the limit of two octets before the end |
| `Clzf.PutMatch` | ThirdParty/liblzf/cs/CLZF.cs:195-224 | Flush and back reference keep the output an exact encoding of the consumed input |
| `Clzf.Probe` | ThirdParty/liblzf/cs/CLZF.cs:177-180 | The table answers with an earlier position or zero and remembers the new one |
| `Clzf.RoomInside` | ThirdParty/liblzf/cs/CLZF.cs:195-196 | Where the encoder gives up, the output was smaller than needed |
| `Clzf.LiteralsNeed` | ThirdParty/liblzf/cs/CLZF.cs:259-263 | An input of literals alone needs exactly one octet more than it is encoded in |
| `Clzf.NotCostly` | ThirdParty/liblzf/cs/CLZF.cs:182-188 | Where a candidate is accepted the input has a repetition, whatever the table holds |
| `Clzf.Rehash` | ThirdParty/liblzf/cs/CLZF.cs:226-235 | The end of a match enters its last two positions |
| `Clzf.KeysAreOfThree` | ThirdParty/liblzf/cs/CLZF.cs:177-178 | Equal octets have equal slots |
| `Clzf.LiteralChosen` | ThirdParty/liblzf/cs/CLZF.cs:182-188 | Writing a literal keeps the parse greedy, up to the last four octets |
| `Clzf.MatchChosen` | ThirdParty/liblzf/cs/CLZF.cs:189-236 | So does a match |
| `Clzf.StopsAt` | ThirdParty/liblzf/cs/CLZF.cs:195-196 | When the encoder gives up, what it has written comes within four octets of the output size |
| `Clzf.Compress` | ThirdParty/liblzf/cs/CLZF.cs:153-272 | The second encoder: exact encoding of every input of two or more octets for every hash, size bound, never 0 when the output holds Needed(n) octets, and 0 on every input without repetitions when it holds fewer; under every hash of three octets the parse is greedy up to the last four octets; it gives up only with less than five octets to spare |
| `Clzf.LiteralRun` | ThirdParty/liblzf/cs/CLZF.cs:286-299 | One literal token agrees with the reference step, a truncated input raising an exception |
| `Clzf.CopyReference` | ThirdParty/liblzf/cs/CLZF.cs:323-328 | Two single copies and the do-while make the reference copy |
| `Clzf.BackReference` | ThirdParty/liblzf/cs/CLZF.cs:300-329 | One back reference agrees with the reference step |
| `Clzf.Decompress` | ThirdParty/liblzf/cs/CLZF.cs:277-334 | The second decoder is the same fold: it returns the data when the fold accepts, 0 when the output is full or a reference is bad, and raises exactly when more input could change the failure |
| `LzfRoundTrip.Encode` | ThirdParty/liblzf/lzf.h:71-73 | Every result of every encoder, chosen freely, decodes to the input, misses no match that encoder promises to take, and is empty only when there was no room |
| `LzfRoundTrip.EqualOctetsPacked` | ThirdParty/liblzf/lzf.h:60-66 | For every encoder the parse of equal octets is small |
| `LzfRoundTrip.EncodeEqual` | ThirdParty/liblzf/lzf.h:60-66 | Equal octets are always compressed, into about three octets for 263, when the output holds that and four octets to spare |
| `LzfRoundTrip.DecodeWith` | ThirdParty/liblzf/lzf.h:96-109 | Both decoders compute the same function of the compressed string |
| `LzfRoundTrip.RoundTrip` | ThirdParty/liblzf/lzf.h:71-73 | Interoperability: for all three encoders, both decoders, every input, hash, output limit and decoding buffer, what was compressed comes back unchanged |
| `LzfRoundTrip.EnoughIsExact` | ThirdParty/liblzf/lzf.h:85-94 | For each encoder and every length: the costliest input is compressed if and only if the output holds Enough octets, which suffice for every other input; for lzf_compress under every hash of three octets, for the other two under every hash |
| `LzfRoundTrip.MacroFails` | ThirdParty/liblzf/lzf.h:85-94 | With the shipped hash, lzf_compress given LZF_MAX_COMPRESSED_SIZE(n) octets of output returns 0 on some input of n octets, for every n |
| `LzfRoundTrip.MacroAgainstEnough` | ThirdParty/liblzf/lzf.h:85-94 | The macro reaches what an encoder needs if and only if the encoder is the C# one and the length is a multiple of 32; three octets more always suffice |
| `LzfFile.InFile.Read` | ThirdParty/liblzf/lzf.c:130-130 | The descriptor: any non-empty part of what is asked, end of file only at the end, or an error that takes nothing |
| `LzfFile.OutFile.Write` | ThirdParty/liblzf/lzf.c:154-155 | The descriptor: any non-empty prefix is written, or an error and nothing |
| `LzfFile.RRead` | ThirdParty/liblzf/lzf.c:124-142 | Partial reads add up: all that was asked, or all there is, in order, and the rest of the buffer untouched |
| `LzfFile.WWrite` | ThirdParty/liblzf/lzf.c:144-168 | Partial writes add up: success means all of the data was written once, in order; failure leaves a prefix |
| `LzfFile.UnframeBlock` | ThirdParty/liblzf/lzf.c:250-313 | Reading one written block in front of any stream gives its data and then the stream |
| `LzfFile.UnframePrefix` | ThirdParty/liblzf/lzf.c:250-313 | The same for any number of blocks |
| `LzfFile.UnframeInvertsFile` | ThirdParty/liblzf/lzf.c:170-177 | A file of valid blocks, ended by end of file or a zero octet, reads back as exactly their contents |
| `LzfFile.FirstBlock` | ThirdParty/liblzf/lzf.c:253-313 | A block that is read on is a valid block written in the stream |
| `LzfFile.BlocksOfAccepted` | ThirdParty/liblzf/lzf.c:238-314 | From any stream read to its end the blocks can be recovered |
| `LzfFile.UnframeAcceptsExactlyFiles` | ThirdParty/liblzf/lzf.c:238-314 | A stream is read to its end, giving x, if and only if it is a file of valid blocks holding x, ended by the end of the stream or an end mark |
| `LzfFile.BlockLayout` | ThirdParty/liblzf/lzf.c:170-177 | The octets of a block: Z, V, the type, the sizes, and the payload |
| `LzfFile.WordIsBigEndian` | ThirdParty/liblzf/lzf.c:203-206 | Sizes are stored high octet first |
| `LzfFile.PackBlock` | ThirdParty/liblzf/lzf.c:196-218 | A block is packed when that saves four octets and stored otherwise, always standing for its data; it is stored only when the compressor, missing no match, could not save them, so twenty or more equal octets are always packed |
| `LzfFile.ReadBlock` | ThirdParty/liblzf/lzf.c:194-194 | One block of input, or, after a failed read, the octets that read had already taken |
| `LzfFile.TornBlock` | ThirdParty/liblzf/lzf.c:220-221 | A failed write leaves all earlier blocks and a prefix of the next, standing for a prefix of the input |
| `LzfFile.CompressFd` | ThirdParty/liblzf/lzf.c:185-225 | The file written is a sequence of valid blocks of at most blocksize octets whose contents are everything read, for every way reads and writes are cut up; after a failed write it is such a file cut off inside a block; after a failed read 0 is returned although what that read had taken, and all behind it, is lost |
| `LzfFile.RemainsStep` | ThirdParty/liblzf/lzf.c:250-313 | One pass over the stream, as a step from what is decoded to what remains |
| `LzfFile.ReadHeader` | ThirdParty/liblzf/lzf.c:240-249 | The over octets carried from the last pass and the newly read ones form the next seven octets of the stream |
| `LzfFile.ParseHeader` | ThirdParty/liblzf/lzf.c:253-278 | The tests on magic, length and type accept exactly the headers of the format and give the sizes they state |
| `LzfFile.ReadPayload` | ThirdParty/liblzf/lzf.c:280-296 | However many data octets were already read with the header, and whether the block was even shorter than that, the payload is the next octets of the stream and the carry is what follows |
| `LzfFile.ReadRest` | ThirdParty/liblzf/lzf.c:292-296 | The payload is completed from the file exactly when the file still has it |
| `LzfFile.WriteBlock` | ThirdParty/liblzf/lzf.c:298-313 | A block is written out exactly when it decodes to its stated size |
| `LzfFile.UncompressFd` | ThirdParty/liblzf/lzf.c:227-321 | On every stream, valid or not, and for every cutting of reads and writes: without I/O failure it writes exactly the data the format gives that stream and returns 0 exactly when the stream is well formed; with one, what was written is a prefix of that data |
| `LzfFile.FramedRoundTrip` | ThirdParty/liblzf/lzf.c:185-321 | uncompress_fd undoes compress_fd for every byte stream, every blocksize 1..65535 and both compressors |
| `IoBuffer.ViewIsBounded` | EngineLayer/SFIOBuffer.cpp:139-145 | A ring of n bytes never shows more than n - 1, and is empty exactly when head meets tail |
| `IoBuffer.StoreExtends` | EngineLayer/SFIOBuffer.cpp:40-51 | Storing a part at the tail, up to the wrap, appends it to the FIFO |
| `IoBuffer.AdvanceDrops` | EngineLayer/SFIOBuffer.cpp:76-79 | Moving the head drops exactly the oldest bytes, across the wrap |
| `IoBuffer.OldestBytes` | EngineLayer/SFIOBuffer.cpp:67-74 | The one or two pieces copied out are the oldest bytes |
| `IoBuffer.SFIOBuffer.constructor` | EngineLayer/SFIOBuffer.cpp:4-8 | A new buffer owns no memory |
| `IoBuffer.SFIOBuffer.InitIOBuf` | EngineLayer/SFIOBuffer.cpp:15-24 | After initialisation the FIFO is empty |
| `IoBuffer.SFIOBuffer.AllocIOBuf` | EngineLayer/SFIOBuffer.cpp:104-123 | Succeeds exactly up to MAX_IO_SIZE, with that size as the default, and starts empty; otherwise nothing changes |
| `IoBuffer.SFIOBuffer.CalcUsedBufferSize` | EngineLayer/SFIOBuffer.cpp:139-145 | The used count is the length of the FIFO |
| `IoBuffer.SFIOBuffer.Store` | EngineLayer/SFIOBuffer.cpp:40-51 | One turn of the copy loop appends its part |
| `IoBuffer.SFIOBuffer.CopyIn` | EngineLayer/SFIOBuffer.cpp:34-52 | The wrap loop ends and appends all of the data |
| `IoBuffer.SFIOBuffer.AppendData` | EngineLayer/SFIOBuffer.cpp:26-57 | All or nothing: refused with -1 and no change exactly when the data would fill the ring, appended whole otherwise |
| `IoBuffer.SFIOBuffer.GetData` | EngineLayer/SFIOBuffer.cpp:59-84 | Returns and removes the oldest min(size, used) bytes and leaves the rest of the destination and the ring memory alone |
| `IoBuffer.SFIOBuffer.RemoveData` | EngineLayer/SFIOBuffer.cpp:86-102 | Removes the oldest min(size, used) bytes |
| `IoBuffer.SFIOBuffer.SetHead` | EngineLayer/SFIOBuffer.h:34-34 | The FIFO becomes what the ring shows from that head |
| `IoBuffer.GetsThenRestore` | EngineLayer/SFPacketIOBuffer.cpp:9-45 | After any sequence of gets, SetHead(oldHead) restores the exact FIFO |
| `PacketStream.GetPacket` | EngineLayer/SFPacketIOBuffer.cpp:9-45 | One of three outcomes decided by the front of the FIFO alone: incomplete or oversized (false, the error code tells which, contents as before), or the packet with its bytes removed |
| `PacketStream.GetHeader` | EngineLayer/SFPacketIOBuffer.cpp:47-66 | Shows the next header, when there is one, and leaves the contents as before |
| `PacketStream.NextPacketExtends` | EngineLayer/SFPacketIOBuffer.cpp:9-45 | Later bytes never change a decision made on the bytes before them |
| `PacketStream.DrainInTwo` | EngineLayer/SFPacketIOBuffer.cpp:9-45 | Polling between two arrivals gives the same packets and leftover as polling once after both |
| `PacketStream.LeftoverIsShort` | EngineLayer/SFPacketIOBuffer.cpp:25-35 | What a drained queue keeps is shorter than one packet |
| `PacketStream.FirstOversized` | EngineLayer/SFPacketIOBuffer.cpp:26-30 | Everything before the first oversized packet fits and that packet does not |
| `PacketStream.PacketAtFront` | EngineLayer/SFPacketIOBuffer.cpp:9-45 | A wholly buffered packet is returned exactly when its data is at most packetSize - 12 |
| `PacketStream.DrainOfWire` | EngineLayer/SFPacketIOBuffer.cpp:9-45 | The bytes of a list of packets give back exactly those before the first oversized one, and nothing after it |
| `PacketStream.ArrivalKeepsAccount` | EngineLayer/SFPacketIOBuffer.cpp:9-45 | An arrival keeps: delivered packets plus what the queue would yield equal what all bytes so far would yield at once |
| `PacketStream.PollKeepsAccount` | EngineLayer/SFPacketIOBuffer.cpp:9-45 | A poll keeps the same account |
| `PacketStream.RunIsChunkingBlind` | EngineLayer/SFPacketIOBuffer.cpp:9-45 | The account holds in every run: chunking and the moments of polling do not matter |
| `PacketStream.Reassembly` | EngineLayer/SFPacketIOBuffer.cpp:9-45 | At every moment of every interleaving the delivered packets are a prefix of the packets sent, in order, none of them oversized |
| `PacketStream.ReassemblyIsComplete` | EngineLayer/SFPacketIOBuffer.cpp:9-45 | When everything arrived and a poll finds nothing more, all packets were delivered if and only if all of them fit |
| `PacketStream.AcceptedOneMore` | EngineLayer/SFIOBuffer.cpp:26-29 | An arrival that would fill the ring is refused whole, any other event changes queue and deliveries as on an unbounded queue |
| `PacketStream.Perform` | EngineLayer/SFPacketIOBuffer.cpp:9-45 | Over the real ring buffer: any interleaving of appends and polls ends in exactly the run of the events the ring takes |
| `PacketStream.OnReceive` | EngineLayer/SFCGSFPacketProtocol.cpp:25-45 | The receive loop returns the packets of the queue plus the chunk; an append is refused exactly when it would fill the ring |
| `PacketStream.PollAll` | EngineLayer/SFCGSFPacketProtocol.cpp:25-45 | The loop ends with a queue that yields nothing more, the account kept, and the error code telling a stuck queue from an incomplete packet |
| `PacketStream.NeverStuck` | EngineLayer/SFPacketIOBuffer.cpp:26-30 | No prefix of a stream of fitting packets ever looks oversized |
| `PacketStream.StuckStays` | EngineLayer/SFPacketIOBuffer.cpp:26-30 | Once an oversized header is in front, nothing is ever delivered again |
| `PacketStream.ShortChunksAreRoomy` | EngineLayer/SFCGSFPacketProtocol.cpp:25-45 | When a chunk and a packet together fit the ring, every chunk finds room |
| `PacketStream.ReceiveAll` | EngineLayer/SFCGSFPacketProtocol.cpp:25-45 | A whole connection over the ring buffer: however the stream is cut, as long as every chunk finds room, the packets delivered are the packets sent and the buffer ends empty |
| `EncryptionXor.CryptTwice` | BaseLayer/SFEncryptionXOR.cpp:13-33 | Encrypting twice gives back the data |
| `EncryptionXor.LoadIsLittleEndian` | BaseLayer/SFEncryptionXOR.cpp:17-19 | A word in memory has its lowest byte first |
| `EncryptionXor.CryptLaws` | BaseLayer/SFEncryptionXOR.cpp:13-22 | Every whole word of the encrypted data is the old word XOR 0xAFB7E3D9, and the bytes behind the last whole word are the old ones |
| `EncryptionXor.WordIsBytes` | BaseLayer/SFEncryptionXOR.cpp:17-19 | The XOR of a little-endian word with the key is four XORs of bytes |
| `EncryptionXor.XorWords` | BaseLayer/SFEncryptionXOR.cpp:17-19 | The loop in place makes the encrypted data of the buffer |
| `EncryptionXor.Encrypt` | BaseLayer/SFEncryptionXOR.cpp:13-22 | In place, every whole word is XORed with 0xAFB7E3D9; the last 0..3 bytes and everything beyond stay |
| `EncryptionXor.Decrypt` | BaseLayer/SFEncryptionXOR.cpp:24-33 | The same: every whole word is XORed with 0xAFB7E3D9, the rest stays |
| `Sequences.StrLen` | EngineLayer/SFPacket.cpp:371-371 | The distance to the next NUL, with none before it |
| `PacketValues.Load16IsLittleEndian` | EngineLayer/SFPacket.cpp:320-337 | A short in memory has its lower byte first |
| `PacketValues.BytesAreLittleEndian` | EngineLayer/SFPacket.cpp:207-297 | The bytes each << writes: numbers lowest byte first, a text with one NUL behind it, a block as it is |
| `PacketValues.ReadsExactly` | EngineLayer/SFPacket.cpp:300-387 | For every type: a value reads back, and the position moves past it, if and only if its bytes lie there |
| `PacketValues.LieAllSplits` | EngineLayer/SFPacket.cpp:300-387 | The bytes of a list lie at a position exactly when those of its first value and of the rest do |
| `PacketValues.ListReadsExactly` | EngineLayer/SFPacket.cpp:300-387 | A list of values reads back if and only if its bytes lie there |
| `PacketValues.WrittenComesLater` | EngineLayer/SFPacket.cpp:277-282 | Dropping empty strings only moves bytes towards the front |
| `PacketValues.ByteIsZero` | EngineLayer/SFPacket.cpp:277-282 | If a list whose first string was dropped is found nevertheless, all its bytes are zero |
| `PacketValues.FoundIffRecoverable` | EngineLayer/SFPacket.cpp:207-298 | In the memory that writing leaves, the list lies at the start if and only if nothing but zeros follows its first empty string |
| `PacketValues.WrittenReadsBackIff` | EngineLayer/SFPacket.cpp:207-387 | Written with << and read with >>, a list that fits comes back if and only if nothing but zero bytes follows its first empty string |
| `PacketValues.NothingDropped` | EngineLayer/SFPacket.cpp:277-289 | Without empty strings the condition holds and every byte is written |
| `PacketValues.EmptyStringIsLost` | EngineLayer/SFPacket.cpp:277-282 | A concrete loss, in a packet of any size: an empty string before the byte 5 does not come back |
| `SfPacket.OptionBits` | EngineLayer/SFStructure.h:21-23 | CRC is option bit 1, compression bit 2, encryption bit 4 |
| `SfPacket.WithoutBit` | EngineLayer/SFPacket.cpp:82-82 | Taking compression out of the options clears bit 2 and no other |
| `SfPacket.HeaderLayout` | EngineLayer/SFStructure.h:8-32 | The twelve bytes of the header: id, options, CRC and size, each lowest byte first |
| `SfPacket.HeaderReadsBack` | EngineLayer/SFStructure.h:8-32 | The packed header, twelve little-endian bytes, reads back as the same four fields |
| `SfPacket.ProtectedTwice` | EngineLayer/SFPacket.cpp:85-90 | What Encode does to the data, done again, undoes it |
| `SfPacket.ProtectedLaws` | EngineLayer/SFPacket.cpp:85-90 | With option bit 4 every whole word of the data is XORed with 0xAFB7E3D9 and the bytes behind stay; without it all stay |
| `SfPacket.SFPacket.constructor` | EngineLayer/SFPacket.cpp:15-47 | A new packet is empty, its memory zero, its read position behind the header |
| `SfPacket.SFPacket.Write` | EngineLayer/SFPacket.cpp:291-297 | All of the bytes are appended, or none when the packet would pass its maximum |
| `SfPacket.SFPacket.Put` | EngineLayer/SFPacket.cpp:207-289 | One <<: the value is appended, a string with its NUL; an empty string or a value that does not fit changes nothing |
| `SfPacket.SFPacket.PutString` | EngineLayer/SFPacket.cpp:277-289 | The string overload: strlen, test, text and NUL |
| `SfPacket.SFPacket.PutAll` | EngineLayer/SFPacket.cpp:207-298 | A list of << appends exactly the bytes of its values |
| `SfPacket.SFPacket.Get` | EngineLayer/SFPacket.cpp:300-387 | One >>: the capacity test, the bytes put together and the step forward give exactly the value that lies at the read position; nothing moves at the end |
| `SfPacket.SFPacket.GetString` | EngineLayer/SFPacket.cpp:370-379 | The string overload: strlen, test, copy and the step over the NUL do the same |
| `SfPacket.SFPacket.TextLength` | EngineLayer/SFPacket.cpp:371-371 | The strlen scan finds the first NUL |
| `SfPacket.SFPacket.Encode` | EngineLayer/SFPacket.cpp:57-114 | With bit 4 every whole word of the data is XORed with 0xAFB7E3D9, then the CRC of the encrypted bytes is taken and the options recorded without compression; fails exactly when compression is asked for at 1024 bytes or more; an encoded or empty packet, and a failed call, change nothing |
| `SfPacket.SFPacket.Cipher` | EngineLayer/SFPacket.cpp:85-90 | The data is encrypted in place when the options ask for it, and the memory behind it stays zero |
| `SfPacket.SFPacket.Decode` | EngineLayer/SFPacket.cpp:116-161 | The CRC is checked before decryption; which error is reported, and that success leaves the decrypted data |
| `SfPacket.SFPacket.Receive` | EngineLayer/SFPacketIOBuffer.cpp:9-45 | A received packet has the parsed header and the received data, zeros behind it |
| `SfPacket.NextReads` | EngineLayer/SFPacket.cpp:300-387 | Where a list lies, its first value is read and the rest lies right behind |
| `SfPacket.GetAll` | EngineLayer/SFPacket.cpp:300-387 | A list that lies in the packet is read back by its types |
| `Conversation.EncodedIsWellFormed` | EngineLayer/SFPacket.cpp:57-114 | Every encoded packet is a packet the stream can carry |
| `Conversation.HeaderFields` | EngineLayer/SFPacket.cpp:116-161 | The header of an encoded packet makes Decode accept it and restore what was written |
| `Conversation.Pack` | EngineLayer/SFPacket.cpp:57-114 | Values written and encoded, twice, give the one packet they determine; the call fails exactly when compression is asked for at or above the limit |
| `Conversation.Unpack` | EngineLayer/SFPacket.cpp:116-387 | Packet round trip, for every option set and any CRC function: Decode accepts, the data is what was written, and the list reads back if and only if nothing but zeros follows its first empty string |
| `Conversation.AllWellFormed` | EngineLayer/SFPacket.cpp:57-114 | The packets of messages within the packet size are packets the stream can carry and the receiver takes |
| `Conversation.Converse` | EngineLayer/SFCGSFPacketProtocol.cpp:25-45 | End to end, for every packet size and ring: lists of values, packed, encoded, sent as one byte stream cut anywhere as long as every chunk finds room, received through the ring buffer, decoded and read, arrive in order and unchanged |
| `Conversation.DefaultSizesAreRoomy` | EngineLayer/SFCGSFPacketProtocol.cpp:25-45 | With the default sizes, a ring of 8192 and packets of 4096, any cuts into chunks of up to 4096 bytes find room |
| `Conversation.ReadOutAll` | EngineLayer/SFPacket.cpp:116-387 | The packets delivered turn back into the lists that were packed |
| `Crc16.StepLinear` | BaseLayer/External/crc.cpp:117-130 | One division step is linear over GF(2) |
| `Crc16.StepInjective` | BaseLayer/External/crc.cpp:117-130 | One division step loses nothing: different registers stay different |
| `Crc16.StepsLinear` | BaseLayer/External/crc.cpp:117-130 | Any number of division steps is linear |
| `Crc16.StepSplits` | BaseLayer/External/crc.cpp:122-129 | A bit that leaves at the top brings in 0x1021 |
| `Crc16.CrcSlow` | BaseLayer/External/crc.cpp:96-138 | The nested loops compute the remainder of the message: the register, started at 0xFFFF, after its bits |
| `Crc16.CrcInit` | BaseLayer/External/crc.cpp:157-199 | Every table entry is the remainder of its index |
| `Crc16.FeedIsLookup` | BaseLayer/External/crc.cpp:226-227 | Eight division steps are one lookup XOR the low byte shifted up |
| `Crc16.LookUp` | BaseLayer/External/crc.cpp:224-228 | One table step computes what eight bit steps do |
| `Crc16.CrcFast` | BaseLayer/External/crc.cpp:213-235 | After crcInit, crcFast equals crcSlow on every message |
| `Crc16.StepsAreBits` | BaseLayer/External/crc.cpp:117-130 | Feeding a word and shifting is feeding its bits one after the other |
| `Crc16.RemainderIsBits` | BaseLayer/External/crc.cpp:97-138 | The byte-wise register is the register of the message as a string of bits |
| `Crc16.ByteBitsInjective` | BaseLayer/External/crc.cpp:107-131 | A byte is determined by its eight bits |
| `Crc16.FeedBitInjective` | BaseLayer/External/crc.cpp:117-130 | Feeding the same bit keeps different registers different |
| `Crc16.SameBitsKeepDifference` | BaseLayer/External/crc.cpp:97-138 | Feeding the same message keeps different registers different, whatever its length |
| `Crc16.StaysDifferent` | BaseLayer/External/crc.cpp:97-138 | Fifteen arbitrary bits after a first difference cannot cancel it |
| `Crc16.BurstChangesRegister` | BaseLayer/External/crc.cpp:97-138 | Bit strings that differ only within sixteen consecutive places give different registers |
| `Crc16.BurstDetected` | BaseLayer/External/crc.cpp:97-138 | Every error burst of at most sixteen bits, at any bit offset of a message of any length, changes the CRC |
| `Crc16.TwoByteBurstDetected` | BaseLayer/External/crc.cpp:97-138 | Equal-length messages that differ only within two adjacent bytes have different CRCs |
| `Crc16.StepKeepsParity` | BaseLayer/External/crc.cpp:117-130 | A division step keeps the parity of the register |
| `Crc16.ParityOfRegister` | BaseLayer/External/crc.cpp:97-138 | The parity of the register is that of its start plus that of the message |
| `Crc16.OddErrorsDetected` | BaseLayer/External/crc.cpp:97-138 | Every error in an odd number of bits changes the CRC |
| `Crc16.Residue` | BaseLayer/External/crc.cpp:97-138 | A message with its own CRC behind it, high byte first, leaves zero |
| `Crc16.CheckValue` | BaseLayer/External/crc.cpp:97-138 | The CRC of the digits 1 to 9 is 0x29B1 |
| `Crc32.StepIsDivision` | BaseLayer/7zcrc.cpp:13-14 | The branch-free step of the generator is the reflected division step |
| `Crc32.StepLinear` | BaseLayer/7zcrc.cpp:13-14 | The step is linear over GF(2) |
| `Crc32.FeedIsLookup` | BaseLayer/SFFastCRC.cpp:15-15 | Eight reflected steps are one lookup XOR the register shifted down |
| `Crc32.SignDoesNotMatter` | ThirdParty/ACE/include/ace/ACE_crc32.cpp:98-98 | A plain char that is negative indexes the table as its byte does |
| `Crc32.Do1` | BaseLayer/SFFastCRC.cpp:15-15 | DO1 feeds one byte |
| `Crc32.Compute` | ThirdParty/ACE/include/ace/ACE_crc32.cpp:98-98 | COMPUTE feeds one byte, whatever its sign |
| `Crc32.CrcIs` | ThirdParty/ACE/include/ace/ACE_crc32.cpp:118-132 | The CRC is the register, started at the complement of the seed, after the message, complemented |
| `Crc32.GetSimpleCRC` | BaseLayer/SFFastCRC.cpp:38-59 | The eight-fold unrolled loop and its tail compute the register from 0xFFFFFFFF XOR 0xFFFFFFFF, the same as ACE::crc32; a null buffer fails |
| `Crc32.Crc32Buffer` | ThirdParty/ACE/include/ace/ACE_crc32.cpp:118-132 | The CRC-32 of the buffer, continued from the seed |
| `Crc32.Crc32Iovec` | ThirdParty/ACE/include/ace/ACE_crc32.cpp:134-149 | For every split, the iovec overload equals the buffer overload on the concatenation |
| `Crc32.Crc32String` | ThirdParty/ACE/include/ace/ACE_crc32.cpp:103-116 | The CRC-32 of the bytes before the first NUL |
| `Crc32.CrcContinues` | ThirdParty/ACE/include/ace/ACE_crc32.cpp:118-132 | crc32(b, crc32(a, s)) equals crc32(a + b, s) |
| `Crc32.CrcGenerateTable` | BaseLayer/7zcrc.cpp:8-22 | For any number of tables, entry 256k + i is the register that byte i followed by k zero bytes leaves, and the first 256 entries are the base table |
| `Crc32.RegisterSuperposes` | BaseLayer/7zcrc.cpp:18-21 | The register of a message splits into the contribution of the start and that of the bytes |
| `Crc32.RegisterIsLookups` | BaseLayer/7zcrc.cpp:18-21 | From a zero register a message is one lookup per byte, each in the table of its distance to the end |
| `Crc32.Slicing` | BaseLayer/7zcrc.cpp:18-21 | From any register: the lookups of the bytes, XOR the start followed by as many zero bytes |
| `Crc32.RegisterMixes` | BaseLayer/7zcrc.cpp:18-21 | A register may be XORed into the first bytes of the message instead |
| `Crc32.SlicingByN` | BaseLayer/7zcrc.cpp:18-21 | One lookup per table equals that many DO1 steps from any register, once the register is XORed into the first four bytes |
| `Crc32.SliceAt` | BaseLayer/7zcrc.cpp:18-21 | Entry 256k + d of the filled array is the register of byte d after k zero bytes |
| `Crc32.TableLookupsAre` | BaseLayer/7zcrc.cpp:18-21 | The XOR of the words found in the filled array is the XOR of the lookups |
| `Crc32.SlicingByTable` | BaseLayer/7zcrc.cpp:18-21 | On the array CrcGenerateTable fills: the XOR of one word per table equals that many DO1 steps from any register |
| `Crc32.Residue` | ThirdParty/ACE/include/ace/ACE_crc32.cpp:118-132 | For every message, the register from 0xFFFFFFFF after it and its own CRC, lowest byte first, is 0xDEBB20E3 (RFC 1662, appendix C.3) |
| `Crc32.CheckValue` | ThirdParty/ACE/include/ace/ACE_crc32.cpp:118-132 | The CRC of the digits 1 to 9 is 0xCBF43926 |
| `CrcCcitt.Index` | ThirdParty/ACE/include/ace/ACE_crc_ccitt.cpp:66-66 | The index stays inside the table, whatever the sign of the char |
| `CrcCcitt.ComputeIsFeed` | ThirdParty/ACE/include/ace/ACE_crc_ccitt.cpp:66-66 | With the table of RFC 1662, appendix C.2, COMPUTE is eight reflected division steps with 0x8408, whatever the sign of the char |
| `CrcCcitt.ResidueAndCheckValue` | ThirdParty/ACE/include/ace/ACE_crc_ccitt.cpp:86-100 | With that table the residue of every message is 0xF0B8 and the CRC of the digits 1 to 9 is 0x906E |
| `Reflected16.FeedIsLookup` | ThirdParty/ACE/include/ace/ACE_crc_ccitt.cpp:66-66 | Eight reflected steps are one lookup XOR the register shifted down |
| `Reflected16.OwnComplement` | ThirdParty/ACE/include/ace/ACE_crc_ccitt.cpp:86-100 | Fed the complement of its own bytes, any register ends in 0xF0B8 |
| `Reflected16.Residue` | ThirdParty/ACE/include/ace/ACE_crc_ccitt.cpp:86-100 | The residue law for every message |
| `CrcCcitt.CcittBuffer` | ThirdParty/ACE/include/ace/ACE_crc_ccitt.cpp:86-100 | The register from the complemented seed after the buffer, complemented, for any table; with the table of RFC 1662 it is that CRC |
| `CrcCcitt.CcittIovec` | ThirdParty/ACE/include/ace/ACE_crc_ccitt.cpp:102-117 | For every split, the iovec overload equals the buffer overload on the concatenation |
| `CrcCcitt.CcittString` | ThirdParty/ACE/include/ace/ACE_crc_ccitt.cpp:71-84 | The CRC of the bytes before the first NUL |
| `CrcCcitt.CrcContinues` | ThirdParty/ACE/include/ace/ACE_crc_ccitt.cpp:86-100 | crc_ccitt(b, crc_ccitt(a, s)) equals crc_ccitt(a + b, s) |
| `CrcFold.FoldSplit` | ThirdParty/ACE/include/ace/ACE_crc32.cpp:118-132 | Feeding a message in two parts is feeding it whole |
| `GatherWrite.Handle.Writev` | ThirdParty/ACE/include/ace/ACE.cpp:2152-2154 | The OS: a positive result is the length of a prefix of what was offered, which went out; otherwise nothing did |
| `GatherWrite.JoinDrop` | ThirdParty/ACE/include/ace/ACE.cpp:2167-2173 | Trimming the part sent halfway leaves exactly the bytes not yet sent |
| `GatherWrite.Advance` | ThirdParty/ACE/include/ace/ACE.cpp:2161-2173 | After n bytes were taken the iovec holds exactly the rest, starting with a part that is not empty |
| `GatherWrite.VecN` | ThirdParty/ACE/include/ace/ACE.cpp:2136-2177 | writev_n and both forms of sendv_n_i, with empty parts allowed anywhere: everything goes out once and in order and the result is the number of bytes, capped at the largest ssize_t, or the result is 0 or -1 and what went out is a proper prefix counted exactly |
| `GatherWrite.Flush` | ThirdParty/ACE/include/ace/ACE.cpp:1945-1963 | A full gather buffer is sent whole and emptied, or the write stops with a proper prefix out |
| `GatherWrite.Collect` | ThirdParty/ACE/include/ace/ACE.cpp:1932-1963 | One more chunk in the buffer, sent when full: collected equals sent plus buffered |
| `GatherWrite.CollectBlock` | ThirdParty/ACE/include/ace/ACE.cpp:1921-1964 | A block cut into chunks of any size is collected whole |
| `GatherWrite.CollectMessage` | ThirdParty/ACE/include/ace/ACE.cpp:1917-1968 | All blocks of a message are collected in order, or the write stops with a proper prefix out |
| `GatherWrite.PayloadStep` | ThirdParty/ACE/include/ace/ACE.cpp:1914-1972 | A chain is a message and the chain behind its next pointer |
| `GatherWrite.MessageStep` | ThirdParty/ACE/include/ace/ACE.cpp:1919-1968 | A message is a block and its continuations |
| `GatherWrite.WriteN` | ThirdParty/ACE/include/ace/ACE.cpp:1902-2095 | write_n and send_n: for every chain, every schedule of partial writes and every ACE_IOV_MAX, the bytes of all blocks in next/cont order go out once each and the result is their number, capped at the largest ssize_t, or the result is 0 or -1 and what went out is a proper prefix whose length is the reported count |
| `IdMap.StepConserves` | NetworkLayer/GSFNet/IDMap.h:17-31 | Every locked step keeps idle ids (without duplicates) and live ids a partition of 1..MaxIDCount |
| `IdMap.RunConserves` | NetworkLayer/GSFNet/IDMap.h:17-31 | So does every run |
| `IdMap.InitialConserved` | NetworkLayer/GSFNet/Queue.h:38-42 | The constructor establishes the partition |
| `IdMap.RegisterFailsExactlyWhenFull` | NetworkLayer/GSFNet/IDMap.h:17-23 | In every reachable state Register fails exactly when all ids are live, and never issues a live one |
| `IdMap.QueueLaw` | NetworkLayer/GSFNet/IDMap.h:17-31 | Idle before plus freed equals issued plus idle after, as sequences, over every run |
| `IdMap.FreedIdWaits` | NetworkLayer/GSFNet/IDMap.h:25-31 | An id freed when the queue then holds q ids is not among the next q - 1 issued, and is the q-th |
| `IdMap.HeldUntilFreed` | NetworkLayer/GSFNet/IDMap.h:17-38 | A live id keeps its object and is issued to no one else until it is freed |
| `IdMap.LiveIsLastRegistered` | NetworkLayer/GSFNet/IDMap.h:17-38 | Over every run from the start: a live id's object is the argument of the last Register step that issued it, and no step freed it since |
| `IdMap.IDQueue.constructor` | NetworkLayer/GSFNet/Queue.h:38-42 | The queue starts with all ids in order |
| `IdMap.IDQueue.Pop` | NetworkLayer/GSFNet/Queue.h:44-48 | The oldest idle id, or INVALID_ID and no change |
| `IdMap.IDQueue.Push` | NetworkLayer/GSFNet/Queue.h:49-60 | Only ids of the range are queued, at the end |
| `IdMap.SFIDMap.constructor` | NetworkLayer/GSFNet/IDMap.h:14-14 | A new map is the initial state |
| `IdMap.SFIDMap.Register` | NetworkLayer/GSFNet/IDMap.h:17-23 | The oldest idle id is bound to the object given and taken off the queue, and every other binding stays; with no idle id nothing changes |
| `IdMap.SFIDMap.UnRegister` | NetworkLayer/GSFNet/IDMap.h:25-31 | A live id loses its binding and joins the end of the queue, and every other binding stays; an id that is not live changes nothing |
| `IdMap.SFIDMap.Get` | NetworkLayer/GSFNet/IDMap.h:33-38 | Finds exactly the live ids, which are in range and not idle |
| `IdMap.SizesAddUp` | NetworkLayer/GSFNet/IDMap.h:40-42 | In every conserved state live and idle ids together number MaxIDCount |
| `IdMap.SFIDMap.Size` | NetworkLayer/GSFNet/IDMap.h:40-42 | The live ids; together with the idle ones there are always MaxIDCount |
| `IdMap.Serve` | NetworkLayer/GSFNet/ProactorServiceManager.h:64-72 | Any interleaving of locked calls is a run of steps, and the ids handed out are the ids that run issues |

## Left out

- LzfCompress.Compress: that the parse is greedy is stated for a hash of three octets, as the shipped one is; below Needed, whether an input is given up is decided for the costliest ones only, for the others up to four octets of room.
- LzfCompressBest.CompressBest: requires an input address beyond the first 64 KB, where no object lies; below it the pointer arithmetic of the chain could wrap.
- Clzf.Compress: requires two octets of input, because the code reads two before any test.
- LzfFile.CompressFd: buf1 and buf2, where header and data share an array, are modelled as the block's octets and not as one array.
- PacketStream.OnReceive: the session, serial and packet type set on each packet (EngineLayer/SFPacketProtocol.h) are not modelled; a refused append is reported by the model, while the code ignores it.
- Conversation.Converse: chunks that do not find room are outside it; the code drops them, and the packets in them.
- SfPacket.SFPacket.Get: a string read requires a NUL between the read position and the end of the packet's memory, since strlen has no bound.
- SfPacket.SFPacket.Encode: compression is the library's stub that always fails, as in the repository; a working compressor is not modelled. The CRC is any function of the bytes, since GetZLibCRC is a stub too.
- SfPacket.SFPacket.Decode: the error code on success is given as none, where the code leaves it as it was; a compressed packet is never decoded.
- GatherWrite.VecN: the OS follows a finite script and fails after it, so endless reports that a call would block are not modelled; waiting for the handle is one outcome in that script, and the handle's blocking mode is not modelled.
- IdMap.Serve: the lock is modelled by its effect, that steps do not overlap; Disconnect, BroadCast and the lifetime of the session objects are not modelled.
- Lengths are unbounded numbers: wrap-around of 32-bit lengths in the codec, the ring buffer and the CRC functions is not modelled.
- The lzf_c.c variants ULTRA_FAST, OPTIMISE_SIZE, STRICT_ALIGN, CHECK_INPUT off and the rep-movsb copy. INIT_HTAB may be on or off in the model.
- An octet that the code may read one past its input is a parameter of the model, with any value.
- The hash functions of the other build variants, of lzf_c_best.c and of CLZF.cs as such; the codec theorems hold for any.
- The literal entries of the CRC tables: CRC-32 functions are proved for the generated table, crc_ccitt for any table. Reflection in crc.cpp, which crc.h switches off for the 16-bit CRC used.
- The header of a packet, which in the source aliases the start of the packet buffer, is a group of fields; the wire form is where it becomes bytes.
- Command-line options, file names and messages of lzf.c; bench.c.
- JSON packets and protocols, whose element bodies are not part of this model.
- Clone and the pools of SFPacket, protocol lookup, object pools, string conversion: they would only add easy members.
- Sockets, threads, proactor and reactor, timers, configuration.
- readv_n, recv_n and the other transfer functions of ACE.cpp; wild_match, argument and array utilities of ACE.
