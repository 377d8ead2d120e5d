# Verification of the algorithmic parts of libkullo

Dafny models of the parts of the repository that carry hard algorithmic properties, and proofs of these
properties. `dafny verify dfyconfig.toml` checks the whole project.

* **Argon2** (`Argon2*.dfy`, `Blamka*.dfy`): parameter checks, reference indexing, both segment fillers, the
  single-threaded and the multi-threaded fill, the SSE2/SSSE3/AVX2 rounds against the scalar one. The matrix of
  section 3.2 of RFC 9106 is the specification that the in-place fillers, the optimized form and every thread
  schedule are proved against. For the scheduling proofs a block is any type, with the compression as a parameter
  (`Argon2Matrix.Primitives`); `BlamkaBlock` to `BlamkaAvx` open it up as 128 words, and `Argon2Blocks` and `Argon2`
  put everything together: `argon2_ctx` computes the tag of the RFC with its own G, H0 and H'. `Argon2Rules` says by type
  and version which blocks are addressed independently of the data, and which are overwritten.
* **BLAKE2b** (`Blake2b*.dfy`, `LittleEndian.dfy`): the streaming state as a class over arrays, against the one-shot
  definitions of RFC 7693, and the variable-length hash of RFC 9106; `Blake2bLaws` on what the compression keeps apart.
* **Djinni proxy cache** (`ProxyCache.dfy`): a transition system in which any number of threads look up, copy and
  drop proxies while destructors run late. Object identities are never reused, addresses are.
* **Argon2 strings** (`Base64.dfy`, `Decimal.dfy`, `Argon2Encoding.dfy`, `Argon2Verify.dfy`): Base64, decimal
  numbers, the encoded hash string in both directions, hashing and verifying.
* **Unicode** (`Utf.dfy`, `CodeValues.dfy`, `Nowide.dfy`, `NowideSkip.dfy`): decoding and encoding for units of 1, 2 and
  4 bytes, with the units as numbers, and the conversions built on them.
* **JSON** (`Json*.dfy`): `JsonSyntax` says what the reader makes of a text; `JsonReader` is the reader with its
  cursor and errors; the two writers print lexemes (`JsonValue.Lex`) with white space between them
  (`JsonValue.Spells`). `JsonComments` adds the comments (`Loose`), and `JsonGrammar` proves what a text is read as that
  spells any syntax tree; on it build `JsonRoundTrip` (when a printed tree is read back), `JsonStability` (for every tree
  that the reader can produce), `JsonLeniency`, `JsonFeatures`, and `JsonRfcStrings`, `JsonRfc` and `JsonStrict` (the
  reader against the grammar and the meaning of RFC 8259, in both directions).

Integers of the C and C++ sources are unbounded integers with explicit wrap-around (`MachineInts`), or bit vectors
where the source works on bits. `unsigned long`, `size_t` and object sizes are those of a 64-bit platform, where
`ARGON2_MAX_MEMORY` is 2^32-1. Plain `char` is signed.

Where the code does less than, or something else than, what is documented, the model follows the code:

* `argon2/encoding.c:70-78`: the comparison macros are documented for 0..255; a negative `char` makes them take
  it for `/`. `Base64.EncodeDecode` gives the exact condition, `Base64.NegativeCharIsAccepted` an example.
* `argon2/argon2.c:451`: the length reserved for the version is that of a two-digit one, so the buffer is too small
  exactly for versions from 100 on (`Argon2Encoding.EncodedLenSuffices`, with the example
  `Argon2Encoding.VersionOneHundred`); one-digit versions leave one character over.
* `argon2/core.c:460`: `8 * lanes` may wrap, and the memory tests are sound by themselves exactly for fewer than 2^29
  lanes (`Argon2Params.MemoryTestsAreSoundIff`, example `Argon2Params.MemoryTestAloneWraps`); a later test rejects
  the others.
* `argon2/core.c:554-594`: a null pointer is hashed as its length alone, so the input of H0 is unambiguous only for contexts
  that were validated (`Argon2Prehash.H0InputIsInjective`, example `Argon2Prehash.NullFieldsCollide`).
* `jsoncpp/jsoncpp.cpp:1591-1603`: an unclosed comment is accepted exactly if the text ends with a slash
  (`JsonLeniency.CommentIsAccepted`, example `JsonLeniency.OpenCommentIsAccepted`).
* `jsoncpp/jsoncpp.cpp:1408-1417`: with single quotes switched off, a single quote opens a comment as a slash does
  (`JsonLeniency.SingleQuoteOpensComment`, example `JsonLeniency.QuoteOpensComment`).
* `jsoncpp/jsoncpp.cpp:1725-1729`: behind a value, a comment can hide a missing comma, whether comments are allowed or
  not. `JsonComma.AcceptedAsDocumentedIff` gives the exact condition, along the way that the reader takes through the
  text; `JsonComma.JunkForComma` is an example. Refused documents may fail alike in spite of it
  (`JsonComma.JunkMayFailAlike`).
* `jsoncpp/jsoncpp.cpp:1682-1685`: an object whose last name is empty may end in a comma
  (`JsonLeniency.TrailingCommaAcceptedIff`, example `JsonLeniency.CommaBehindEmptyName`).
* `jsoncpp/jsoncpp.cpp:4438, 5248-5250, 1349-1361, 1741-1745`: printing with `dropNullPlaceholders` and reading with
  `allowDroppedNullPlaceholders` are not inverse to each other: an array of just one null is printed as the empty
  array, a null root as nothing. `JsonRoundTrip.ParsesPrinted` gives the exact condition (`Survives`),
  `JsonPrintParse.LoneNullIsLost` an example.
* `jsoncpp/jsoncpp.cpp:1953-1976`: strings of RFC 8259 are refused exactly if an escape of a high surrogate is not
  followed by an escape (`JsonRfcStrings.DecodedAsMeant`, example `JsonRfc.LoneSurrogateIsRefused`); of an escape there
  that is no low surrogate the low ten bits are taken.
* `jsoncpp/jsoncpp.cpp:1905-1907`: a double quote in a single-quoted string ends its value, though not the token
  (`JsonFeatures.SingleQuoted`).
* `jsoncpp/jsoncpp.cpp:1740-1750, 1706-1711`: comments are not skipped in front of a colon, nor between a bracket or a
  comma and the bracket that closes an array (`JsonLeniency.ColonBehindComment`, `JsonLeniency.BracketBehindComment`);
  everywhere else they are white space (`JsonGrammar.SpelledAlike`).
* `jsoncpp/jsoncpp.cpp:2166-2180`: strict mode accepts texts outside of RFC 8259. `JsonStrict.StrictIffRfc` says that
  each of them contains something that is no JSON token (such as a comment, a number like `01` or a control
  character in a string), or closes a bracket right behind a comma.
* `jsoncpp/jsoncpp.cpp:1787-1865`: a bare `-` is the number 0 (`JsonNumber.IntegersAre`,
  `JsonLeniency.BareMinusIsZero`).
* `nowide/convert.hpp:112-148`: the string forms of `narrow` and `widen` are documented to throw, but use the
  default policy, which skips (`Nowide.StringFormsNeverThrow`).
* `nowide/utf.hpp:233-251`: skipping is documented for illegal characters, but drops the unit that shows a sequence to
  be truncated as well. `NowideSkip.SkipIsResyncedIff` says exactly when a character is lost by that, again along the
  way that `decode` takes (`NowideSkip.TwoLeadsCancel` shows why); `Nowide.SkipSwallowsALetter` is an example.

## Model

| member | source | states |
|---|---|---|
| `Argon2Params.AcceptedIffAcceptable` | argon2/core.c:375-500 | `validate_inputs` accepts exactly the contexts that meet the documented limits over unbounded integers, although the product `8 * lanes` is a 32-bit one |
| `Argon2Params.MemoryTestsAreSoundIff` | argon2/core.c:451-462 | the memory tests by themselves let only memory of at least 8 blocks per lane pass, whatever the memory, if and only if there are fewer than 2^29 lanes |
| `Argon2Params.MemoryTestAloneWraps` | argon2/core.c:460-462 | an example: with 2^29 lanes the test lets any memory pass, and only the later lane bound rejects |
| `Argon2Params.AcceptedGivesValidInstance` | argon2/argon2.c:53-75 | every accepted context yields segments of at least 2 blocks, `lane_length = 4 * segment_length`, `memory_blocks = lanes * lane_length <= m_cost`, `1 <= threads <= lanes`, with no wrap-around |
| `Argon2Index.IndexAlphaSelectsFromWindow` | argon2/core.c:179-247 | for every position and every 32-bit value, `index_alpha` picks the block of the window of section 3.4.2 of RFC 9106 that the skewed distribution prescribes; no 32- or 64-bit operation wraps |
| `Argon2Index.RelativePositionIsSkewed` | argon2/core.c:224-232 | the two multiply-and-shift steps on 64-bit words equal `size - 1 - size * (x * x / 2^32) / 2^32` on unbounded integers |
| `Argon2Index.RecentBlocksAreFavoured` | argon2/core.c:225-232 | the position falls as J1 grows, from the newest block on; the lower half of all J1 falls upon the newest quarter of the window, the upper half upon the rest |
| `Argon2Index.AreaIsWindowSize` | argon2/core.c:197-222 | the case analysis of the reference area size counts exactly the blocks of the window |
| `Argon2Index.WindowIsConstructed` | argon2/core.c:190-247 | every block in the window is already built and is not the previous block, and no block of the window in a foreign lane lies in the slice being written |
| `Argon2Matrix.ReferenceIsStable` | argon2/ref.c:143-172 | the reference of a new block is inside the lane, constructed, outside the current slice in foreign lanes, and neither the previous nor the current block in the own lane |
| `Argon2Matrix.NewBlockIsLocal` | argon2/ref.c:121-193 | a new block depends only on blocks that no other worker of the slice writes |
| `Argon2Matrix.RunChangesOnlySegment` | argon2/ref.c:121-193 | a segment worker changes nothing but the blocks of its own segment that it has reached |
| `Argon2Matrix.RunIsLocal` | argon2/ref.c:90-194 | two memories that agree outside the foreign parts of the slice stay so under the same segment worker: other lanes do not interfere |
| `Argon2Matrix.RunLanesIsLanewise` | argon2/core.c:250-265 | filling a slice lane after lane equals filling every lane on its own from the memory at the beginning of the slice |
| `Argon2Fill.StoreIsPut` | argon2/core.c:60-69 | a store at `lane * lane_length + column` changes that block of the matrix and no other |
| `Argon2Fill.NextAddresses` | argon2/ref.c:83-88 | after any number of calls in a segment, one more call yields the next block of pseudo-random values G(ZERO, G(ZERO, Z)) of section 3.4.1.2 of RFC 9106, in every build |
| `Argon2Fill.DrawRand` | argon2/opt.c:190-197 | the pseudo-random word drawn from the address block or from the previous block is the one that sections 3.4.1.1 and 3.4.1.2 of RFC 9106 prescribe: that of the address block for Argon2i, and for Argon2id in the first half of the first pass, and word 0 of the previous block otherwise; the address state stays in step |
| `Argon2Rules.AddressedByPosition` | argon2/ref.c:104-107 | by type, pass and slice: every position of Argon2i, and those of Argon2id in the first two slices of the first pass, take word `index % 128` of address block `index / 128 + 1`, and the lane and column of the reference block are the same for any two memories |
| `Argon2Rules.AddressedByData` | argon2/ref.c:161-168 | all other positions take word 0 of the previous block, cyclically in the lane |
| `Argon2Rules.ObliviousIff` | argon2/ref.c:104-107 | no memory influences the pseudo-random word of a position if and only if it is one of those, as soon as two blocks differ in word 0 |
| `Argon2Rules.ReferencesAreFixed` | argon2/ref.c:150-176 | the sequence of blocks that a worker refers to in such a segment is a function of the instance alone, whatever the memory holds |
| `Argon2Rules.InputBlockWords` | argon2/ref.c:109-120 | pass, lane, slice, memory, passes, type and counter stand at words 0 to 6 of the input of the address blocks, and nothing else |
| `Argon2Rules.Overwriting` | argon2/ref.c:178-192 | by version and pass: a block is overwritten with G of the previous and the reference block in version 1.0 and in the first pass, and has that XORed over it otherwise |
| `Argon2Fill.SelectReference` | argon2/ref.c:143-172 | compressing the previous block with the block at the chosen offset gives the block that the RFC prescribes |
| `Argon2Fill.RotatedPrevious` | argon2/ref.c:148-153 | the incrementally kept previous offset is always the cyclic predecessor in the lane, and all offsets stay below `memory_blocks` |
| `Argon2Fill.FillSegmentRef` | argon2/ref.c:90-194 | the reference segment filler, in place on blocks of words, leaves the memory of the RFC, for all types and versions |
| `Argon2Fill.FillSegmentOpt` | argon2/opt.c:134-241 | the optimized segment filler, which carries the previous block in SSE2, SSSE3 or AVX2 registers, leaves the same memory, in place |
| `Argon2Fill.FillMemoryBlocksSt` | argon2/core.c:250-265 | one thread, any build: the memory of the RFC after all passes |
| `Argon2.FillFirstBlocks` | argon2/core.c:502-523 | the first two blocks of every lane become the 1024-byte hashes of H0, the number of the block and the lane that section 3.2 of RFC 9106 prescribes; no other block changes |
| `Argon2.FirstBlockInput` | argon2/core.c:502-523 | behind H0 the number of the block and the lane are hashed, as little-endian numbers at bytes 64 and 68 |
| `Argon2Fill.XorLastBlocks` | argon2/core.c:145-160 | the XOR of the last blocks of all lanes, without changing the memory |
| `Argon2.Finalize` | argon2/core.c:145-177 | the tag is the variable-length hash of that XOR |
| `Argon2FirstPass.UninitialisedMemoryIsIrrelevant` | argon2/core.c:87-111 | the first pass overwrites or never reads what the allocated memory held: two memories that agree on the first two columns give the same fill |
| `Argon2.BlockBack` | argon2/core.c:71-83 | loading what was stored of a block gives the block back |
| `Argon2Blocks.Registers.FillBlock` | argon2/opt.c:28-108 | in every vector build `state` and the block in memory both become the compression of `state` and the reference block |
| `Argon2.Argon2Ctx` | argon2/argon2.c:39-98 | succeeds exactly for acceptable contexts, and then computes the tag of section 3.2 of RFC 9106 with its real G, H0 and H', whatever the allocated memory held, in every build |
| `Argon2.ThreadedRunGivesTag` | argon2/argon2.c:76-98 | whatever the schedule, the threaded fill has returned after a fixed number of steps and not before, and then the tag is that of the RFC |
| `Argon2ThreadCount.ThreadsDoNotMatter` | argon2/argon2.c:67-74 | contexts that differ in the number of threads only have the same tag |
| `Argon2Threads.StepKeepsInv` | argon2/core.c:301-356 | every step of every thread (create, join, load, store, exit, end of slice) keeps the invariant |
| `Argon2Threads.BarrierIsSequential` | argon2/core.c:346-351 | at the end of a slice every worker was joined exactly once, none is outstanding, and the memory is that of the sequential slice |
| `Argon2Threads.ThreadedFillIsSequential` | argon2/core.c:282-359 | for every interleaving and every thread count the threaded fill leaves exactly the memory of the sequential fill, every block written once per pass |
| `Argon2Threads.NeverStuck` | argon2/core.c:301-356 | no reachable state before the return is stuck |
| `Argon2Termination.StepCounts` | argon2/core.c:301-356 | in every reachable state every step, whichever thread makes it, leaves exactly one step less to go |
| `Argon2Termination.EveryScheduleEnds` | argon2/core.c:282-359 | no schedule is longer than a bound that depends on the instance only, and the fill has returned if and only if that many steps were made |
| `Argon2Threads.LoadMayBeSplit` | argon2/ref.c:143-193 | no step of another thread changes what a worker reads for its next block, so the blocks may be read word by word |
| `Argon2Threads.StoreMayBeSplit` | argon2/ref.c:143-193 | while a worker stores a block, the next blocks of all other workers do not depend on what that block holds, so it may be stored word by word |
| `Argon2Threads.LoadsAreSafe` | argon2/ref.c:143-193 | in every reachable state the previous block and the reference block have been written, a reference into another lane lies outside the slice being written, and the block about to be built was written once per earlier pass |
| `Argon2Threads.JoinWindow` | argon2/core.c:309-343 | at most `threads` workers are alive at a time and none is joined twice |
| `Argon2Prehash.InitialHash` | argon2/core.c:525-597 | feeding the fields piece by piece yields the digest H0 of section 3.2 of RFC 9106 |
| `Argon2Prehash.HeaderWords` | argon2/core.c:536-552 | the first 24 bytes are lanes, outlen, m_cost, t_cost, version and type as little-endian numbers |
| `Argon2Prehash.H0InputIsInjective` | argon2/core.c:525-600 | two accepted contexts with the same input to H0 agree in type, all parameters, all lengths and all bytes of password, salt, secret and associated data |
| `Argon2Prehash.AcceptedIsCounted` | argon2/core.c:375-446 | an accepted context has no null pointer with a length, which is what that needs |
| `Argon2Prehash.NullFieldsCollide` | argon2/core.c:554-573 | without that it fails: the length of a null password can stand for a password |
| `Blamka.Ssse3RoundIsScalar` | argon2/blake2/blamka-round-opt.h:105-180 | for any word operations the SSSE3 round with its shuffles computes `BLAKE2_ROUND_NOMSG` |
| `Blamka.RoundIsCyclic` | argon2/blake2/blamka-round-ref.h:43-56 | no column and no diagonal of the round is treated differently: it commutes with moving the columns around |
| `Blamka.Sse2RoundIsSsse3Round` | argon2/blake2/blamka-round-opt.h:138-180 | the SSE2 diagonalization moves the words as the SSSE3 one does |
| `Blamka.AvxRound1IsScalar` | argon2/blake2/blamka-round-opt.h:189-312 | `BLAKE2_ROUND_1` on the row layout computes two scalar rounds |
| `Blamka.AvxRound2IsScalar` | argon2/blake2/blamka-round-opt.h:189-325 | `BLAKE2_ROUND_2` on the column layout, with its blends, computes two scalar rounds |
| `BlamkaWords.VectorOpsAreScalar` | argon2/blake2/blamka-round-opt.h:24-60 | the shuffle- and shift-based rotations and the 32-bit multiplications of all three instruction sets equal the scalar operations on all 64-bit words |
| `BlamkaWords.AllRoundsAgree` | argon2/blake2/blamka-round-ref.h:22-56 | on all inputs the scalar, SSE2, SSSE3 and AVX2 rounds agree |
| `BlamkaBlock.CompressLaws` | argon2/ref.c:39-81 | the XOR variant is the plain result XORed over the old block, and the previous and the reference block are interchangeable |
| `BlamkaBlock.FillBlockRef` | argon2/ref.c:39-81 | the in-place reference block function computes the compression of section 3.5 of RFC 9106, also when reference and destination coincide |
| `BlamkaSimd.RoundSseIsRoundSeq` | argon2/blake2/blamka-round-opt.h:168-180 | the round on 128-bit registers is the scalar round on the words they hold |
| `BlamkaSimd.FillBlockSse` | argon2/opt.c:73-108 | the 128-bit block function stores the same block as the reference one and leaves it in `state` |
| `BlamkaAvx.RowsRoundIsRoundSeq` | argon2/blake2/blamka-round-opt.h:301-312 | two rows at once in 256-bit registers |
| `BlamkaAvx.ColumnsRoundIsRoundSeq` | argon2/blake2/blamka-round-opt.h:314-325 | two columns at once in 256-bit registers |
| `BlamkaAvx.FillBlockAvx2` | argon2/opt.c:38-71 | the 256-bit block function stores the same block as the reference one and leaves it in `state` |
| `Blake2bCore.SigmaTableIsCyclic` | argon2/blake2/blake2b.c:31-44 | rows 10 and 11 of the message schedule repeat rows 0 and 1 |
| `Blake2bCore.Compress` | argon2/blake2/blake2b.c:166-222 | the in-place compression computes F of section 3.2 of RFC 7693 |
| `Blake2bLaws.SigmaIsPermutation` | argon2/blake2/blake2b.c:31-44 | each row of the schedule is a permutation: every round takes each of the sixteen message words exactly once |
| `Blake2bLaws.MixIsBijective` | argon2/blake2/blake2b.c:188-198 | the mixing function can be undone, in both orders, for all message words and all distinct places |
| `Blake2bLaws.MixDeterminesWords` | argon2/blake2/blake2b.c:188-198 | from the same vector, different message words lead to different vectors |
| `Blake2bLaws.RoundsAreBijective` | argon2/blake2/blake2b.c:199-216 | for a fixed message any number of rounds is a bijection of the working vector |
| `Blake2bLaws.RoundsKeepApart` | argon2/blake2/blake2b.c:175-216 | behind all rounds the vector still tells the chaining value, both words of the counter, and the flag of the last block, which is not that of the others |
| `Blake2bLaws.Load64Value` | argon2/blake2/blake2b.c:171-173 | a loaded word is the sum of `b[k] * 256^k` |
| `Blake2bLaws.MessageDeterminesBlock` | argon2/blake2/blake2b.c:171-173 | the sixteen words determine all 128 bytes of the block |
| `Blake2bLaws.IvIsRootsOfPrimes` | argon2/blake2/blake2b.c:25-29 | the initial vector holds the first 64 bits behind the point of the square roots of the first eight primes |
| `Blake2b.CounterStep` | argon2/blake2/blake2b.c:57-61 | the carry between the two counter words makes them one 128-bit counter |
| `Blake2b.ParamWords` | argon2/blake2/blake2b.c:73-88 | XORing the parameter block into the state gives the initial chain value of section 3.3 of RFC 7693 |
| `Blake2b.Blake2bState.Init` | argon2/blake2/blake2b.c:91-117 | starts an unkeyed digest, or refuses the length and leaves an unusable state |
| `Blake2b.Blake2bState.InitKey` | argon2/blake2/blake2b.c:119-164 | starts a keyed digest: the padded key is the first block |
| `Blake2b.Blake2bState.Update` | argon2/blake2/blake2b.c:224-262 | appends to the absorbed input; the buffer holds the 1 to 128 bytes not yet compressed and the counter the bytes compressed |
| `Blake2b.Blake2bState.Final` | argon2/blake2/blake2b.c:264-292 | yields the digest of section 3.3 of RFC 7693 of everything absorbed, once |
| `Blake2b.StateIsFunctionOfInput` | argon2/blake2/blake2b.c:224-262 | two states that absorbed the same input agree, however it was cut into pieces |
| `Blake2b.OneShot` | argon2/blake2/blake2b.c:294-330 | the one-call form gives that digest and checks its lengths |
| `Blake2b.Long` | argon2/blake2/blake2b.c:333-389 | computes the variable-length hash of section 3.3 of RFC 9106 for every length from 1 to 2^32-1, writing exactly that many bytes |
| `Blake2b.VariableHashIs` | argon2/blake2/blake2b.c:333-389 | the output of H by position: bytes 32(i-1) to 32i are the first half of the i-th digest of the chain, and the last 33 to 64 bytes are a digest of that length |
| `ProxyCache.Pimpl.Get` | jni/support-lib/proxy_cache_impl.hpp:79-98 | under the mutex: returns the live proxy, or prunes an expired entry and maps the new proxy; other entries stay |
| `ProxyCache.Pimpl.Remove` | jni/support-lib/proxy_cache_impl.hpp:103-120 | under the mutex: erases the entry only if it is expired |
| `ProxyCache.StepKeepsInv` | jni/support-lib/proxy_cache_impl.hpp:79-120 | every step of every thread keeps the invariant |
| `ProxyCache.AtMostOneLiveProxy` | jni/support-lib/proxy_cache_impl.hpp:79-120 | after every run a key has at most one live proxy, and the map leads to it |
| `ProxyCache.EntriesAreOwned` | jni/support-lib/proxy_cache_interface.hpp:130-146 | the object behind any key in the map is still the one its proxy wraps and cannot be destroyed; an expired entry has its destructor pending |
| `ProxyCache.QuiescentMapIsLive` | jni/support-lib/proxy_cache_impl.hpp:100-120 | with no destructor pending the map holds exactly the live proxies |
| `ProxyCache.LookupReturnsTheLiveProxy` | jni/support-lib/proxy_cache_impl.hpp:82-88 | while a proxy lives every lookup of its object returns it |
| `ProxyCache.LateRemoveKeepsLiveEntries` | jni/support-lib/proxy_cache_impl.hpp:107-118 | a late destructor never evicts another proxy that lives |
| `Base64.ByteToCharIsLetter` | argon2/encoding.c:74-88 | the branch-free selection gives the letter of Table 1 of RFC 4648 |
| `Base64.DecodedIs` | argon2/encoding.c:90-102 | on 0..127 exactly the letters of Table 1 decode, to their values; every negative `char` decodes as `/` |
| `Base64.DigitsDecode` | argon2/encoding.c:112-200 | decoding the digits of any byte string gives it back, with nothing but zero bits left over |
| `Base64.BytesEncode` | argon2/encoding.c:190-198 | digits that pass the final test are the digits of what they decode to |
| `Base64.DecodeEncode` | argon2/encoding.c:112-200 | every byte string survives encoding and decoding, if the buffer holds it |
| `Base64.EncodeDecode` | argon2/encoding.c:161-200 | an accepted text re-encodes to itself if and only if it holds no negative `char`: 7-bit texts are accepted only in canonical form (section 3.5 of RFC 4648) |
| `Base64.NegativeCharIsAccepted` | argon2/encoding.c:74-102 | a text with a byte above 127 that is accepted and does not re-encode to itself |
| `Base64.B64Len` | argon2/encoding.c:440-453 | the computed length is the number of digits that hold all bits |
| `Base64.ToBase64` | argon2/encoding.c:112-146 | writes the encoding and a zero into the buffer, or nothing if they do not fit; the wrapped 32-bit accumulator loses nothing |
| `Base64.FromBase64` | argon2/encoding.c:161-200 | decodes the longest run of digits into the buffer; fails exactly on overflow of the buffer or a bad tail, and never writes behind it |
| `Decimal.ValueOfDigits` | argon2/encoding.c:390-395 | a printed number is minimal and has its own value |
| `Decimal.DigitsOfValue` | argon2/encoding.c:209-236 | a minimal numeral is the printed form of its value |
| `Argon2Encoding.ReadDecimal` | argon2/encoding.c:209-236 | reads a minimal numeral that fits an `unsigned long`, and nothing else |
| `Argon2Encoding.ParsePrinted` | argon2/encoding.c:258-438 | parsing inverts printing, for all fields and all types |
| `Argon2Encoding.PrintedExample` | argon2/encoding.c:244-252 | the documented format, for numbers in use and all salts and outputs |
| `Argon2Encoding.PrintedParsed` | argon2/encoding.c:258-371 | a string that parses as a whole prints again as itself if and only if it gives the version explicitly and is 7-bit |
| `Argon2Encoding.OtherTypeFails` | argon2/encoding.c:316-325 | a string of one type does not parse under another |
| `Argon2Encoding.DecodeInvertsEncode` | argon2/encoding.c:258-438 | `decode_string` accepts what `encode_string` makes of any valid context and restores its fields; under other types it fails |
| `Argon2Encoding.EncodeInvertsDecode` | argon2/encoding.c:258-438 | an accepted string is the encoding of the valid context it is decoded to, if and only if it has a version and is 7-bit |
| `Argon2Encoding.EncodeString` | argon2/encoding.c:373-438 | writes the string exactly if it fits with its terminating zero, and never behind the buffer |
| `Argon2Encoding.DecodeString` | argon2/encoding.c:258-371 | status and context of the specification; the buffers hold salt and output and are not overrun |
| `Argon2Encoding.NumLen` | argon2/encoding.c:455-462 | the number of digits of a number |
| `Argon2Encoding.EncodedLen` | argon2/argon2.c:447-452 | the length of separators, type, numerals and Base64 parts |
| `Argon2Encoding.EncodedLenIsTight` | argon2/argon2.c:447-452 | a buffer of that length is large enough if and only if the version is below 100, and just enough if and only if it has two digits |
| `Argon2Encoding.EncodedLenSuffices` | argon2/argon2.c:447-452 | for every accepted context `encode_string` into a buffer of that length succeeds if and only if the version is below 100 |
| `Argon2Encoding.VersionOneHundred` | argon2/argon2.c:447-452 | an accepted context of version 100 whose string does not fit |
| `Argon2Verify.Compare` | argon2/argon2.c:239-247 | the branch-free comparison is 0 exactly for equal bytes |
| `Argon2Verify.HashEncoded` | argon2/argon2.c:100-177 | yields the tag of the RFC and, if asked for, its string, or the error of the first failing step, for all lengths of password, salt and output |
| `Argon2Verify.Verify` | argon2/argon2.c:249-354 | accepts exactly if the string decodes and the recomputed tag of the RFC is the stored one |
| `Argon2Verify.HashThenVerify` | argon2/argon2.c:100-354 | a string made by hashing, with however many threads, is malformed under every other type, and accepted for exactly the passwords with the same tag |
| `Utf.ReadUtf8` | nowide/utf.hpp:203-261 | the loop-free reading of trailing bytes consumes and yields what the specification says |
| `Utf.Decode8Accepts` | nowide/utf.hpp:203-261 | `decode` yields a code point if and only if the text starts with a character of section 4 of RFC 3629, consumes just that, and yields the code point it encodes |
| `Utf.Decode8Encodes` | nowide/utf.hpp:203-320 | `decode` inverts `encode`, whatever follows |
| `CodeValues.EncodeIsOctets` | nowide/utf.hpp:298-321 | the bytes of every code point are those of the table of RFC 3629: its digits in the base 64 behind the marks |
| `Utf.Decode16Accepts` | nowide/utf.hpp:362-379 | the same for UTF-16 and section 2 of RFC 2781 |
| `CodeValues.Encode16IsUnits` | nowide/utf.hpp:397-412 | the units of a code point beyond 65535 are 0xD800 and 0xDC00 plus the quotient and the rest of the code point less 0x10000 by 1024 |
| `Utf.DecodeAccepts` | nowide/utf.hpp:203-445 | the same for units of 1, 2 and 4 bytes |
| `Utf.DecodeEncodes` | nowide/utf.hpp:203-457 | `decode` inverts `encode` for units of 1, 2 and 4 bytes |
| `Utf.EncodeCodePoints` | nowide/utf.hpp:203-457 | well-formed text is what its code points encode to |
| `Utf.CodePointsOfEncoding` | nowide/utf.hpp:203-457 | every sequence of valid code points survives encoding and decoding |
| `Nowide.SpaceSuffices` | nowide/stackstring.hpp:116-126 | `get_space` units always hold the converted text |
| `Nowide.BasicConvert` | nowide/convert.hpp:25-50 | succeeds exactly if the source is well-formed and fits with its terminating zero; writes the converted text, never behind the buffer |
| `Nowide.UtfToUtf` | nowide/encoding_utf.hpp:26-47 | under `stop` throws exactly on ill-formed text; otherwise converts the code points that could be read |
| `Nowide.SkipIsWellFormed` | nowide/encoding_utf.hpp:26-47 | the result of `skip` is well-formed for any input, and loses nothing of well-formed input |
| `Nowide.ThereAndBack` | nowide/convert.hpp:112-148 | narrowing what was widened gives back the text if and only if it is well-formed, for both policies and all unit sizes |
| `Nowide.StringFormsNeverThrow` | nowide/convert.hpp:112-148 | the string forms return a value for every text; the documented exception would be thrown exactly if the text is not an encoding of code points |
| `NowideSkip.TruncatedIsIllegal` | nowide/utf.hpp:233-251 | `decode` consumes a truncated sequence together with the unit behind it |
| `NowideSkip.SkipIsResyncedIff` | nowide/encoding_utf.hpp:35-44 | for every text and every unit size `skip` gives what resuming at the unit at fault would give, if and only if `decode` meets no truncated sequence directly before a character; and it never keeps more |
| `NowideSkip.LossShows` | nowide/encoding_utf.hpp:35-44 | a loss shows in the text: a truncated sequence directly before a character |
| `NowideSkip.TwoLeadsCancel` | nowide/utf.hpp:233-251 | that alone is no loss if the truncated sequence was itself consumed with an earlier one |
| `Nowide.SkipSwallowsALetter` | nowide/utf.hpp:233-251 | an example of a loss: a letter behind a lone lead byte |
| `Nowide.StackString.Convert` | nowide/stackstring.hpp:70-93 | fails only on ill-formed text, and then leaves the empty string |
| `Nowide.StackString.Swap` | nowide/stackstring.hpp:48-53 | exchanges the converted strings |
| `JsonText.LenientIsStrict` | jsoncpp/jsoncpp.cpp:4242-4291 | where a text starts with a valid character the lenient reading is the strict one |
| `JsonText.CodePointToUtf8Is` | jsoncpp/jsoncpp.cpp:125-151 | `codePointToUTF8` is the encoding of RFC 3629 |
| `JsonText.PairBack` | jsoncpp/jsoncpp.cpp:1953-1976 | the surrogate pair printed for a code point is combined to that code point |
| `JsonText.EscapeDecodes` | jsoncpp/jsoncpp.cpp:1900-2002 | what is printed between the quotes always decodes |
| `JsonText.RecodedIsItself` | jsoncpp/jsoncpp.cpp:4329-4404 | it decodes to the string itself if and only if `emitUTF8` was set or the string is valid UTF-8 |
| `JsonText.QuoteRoundTrip` | jsoncpp/jsoncpp.cpp:4329-4404 | `readString` ends a quoted string exactly at its closing quote, whatever follows; decoding gives the string back if and only if `emitUTF8` was set or it is valid UTF-8 |
| `JsonText.ValueToQuotedString` | jsoncpp/jsoncpp.cpp:4329-4404 | the loop and its shortcut for plain strings print the same |
| `JsonText.DecodeString` | jsoncpp/jsoncpp.cpp:1900-1951 | the loop computes the specified decoding |
| `JsonNumber.ReadNumber` | jsoncpp/jsoncpp.cpp:1787-1865 | the exact integer exactly if the text is a sign and digits with a value from -2^63 to 2^64-1, otherwise the double; nothing wraps; a bare `-` is 0 |
| `JsonNumber.IntegersAre` | jsoncpp/jsoncpp.cpp:1787-1865 | a token is an exact integer if and only if it is an optional minus and digits in range, or a bare minus |
| `JsonNumber.UintToString` | jsoncpp/jsoncpp.cpp:167-173 | writes the digits backwards |
| `JsonNumber.ValueToString` | jsoncpp/jsoncpp.cpp:4150-4172 | sign, digits and zero of every 64-bit integer fit the buffer |
| `JsonNumber.IntegerRoundTrip` | jsoncpp/jsoncpp.cpp:1787-1865 | every 64-bit integer is read back exactly |
| `JsonValue.PutLast` | jsoncpp/jsoncpp.cpp:3464-3480 | a member whose name is behind all others is appended |
| `JsonValue.SpellsConcat` | jsoncpp/jsoncpp.cpp:1494-1502 | texts of lexemes compose: white space between lexemes does not matter |
| `JsonReader.Reader.SkipSpaces` | jsoncpp/jsoncpp.cpp:1494-1502 | moves the cursor behind the white space |
| `JsonReader.Reader.ReadString` | jsoncpp/jsoncpp.cpp:1647-1669 | ends at the first quote that is not escaped |
| `JsonReader.Reader.ReadNumber` | jsoncpp/jsoncpp.cpp:1621-1646 | takes digits, a fraction and an exponent, each possibly empty |
| `JsonReader.Reader.ReadComment` | jsoncpp/jsoncpp.cpp:1525-1619 | both comment styles |
| `JsonComments.LineCommentIsSkipped` | jsoncpp/jsoncpp.cpp:1606-1619 | with comments allowed the token behind `//`, a line without line feeds and carriage returns, and any of the three line ends is the next token, whatever the rest |
| `JsonComments.BlockCommentIsSkipped` | jsoncpp/jsoncpp.cpp:1591-1603 | and so behind a C-style comment up to its first closing |
| `JsonComments.GapIsSkipped` | jsoncpp/jsoncpp.cpp:1494-1502 | any sequence of white space and comments in front of a text leaves its next token as it is |
| `JsonComments.NothingFollows` | jsoncpp/jsoncpp.cpp:1525-1619 | behind the last lexeme white space and comments, the last line comment without an end, hold no token |
| `JsonReader.Reader.ReadToken` | jsoncpp/jsoncpp.cpp:1386-1492 | the token of the specification, with the cursor behind it |
| `JsonReader.Reader.RecoverFromError` | jsoncpp/jsoncpp.cpp:2013-2024 | skips up to the wanted token and forgets errors met on the way |
| `JsonReader.Reader.ReadValue` | jsoncpp/jsoncpp.cpp:1284-1374 | outcome of the specification, and exactly one more error on failure |
| `JsonReader.Reader.ReadArray` | jsoncpp/jsoncpp.cpp:1735-1775 | the loop over the elements |
| `JsonReader.Reader.ReadObject` | jsoncpp/jsoncpp.cpp:1671-1733 | the loop over the members |
| `JsonReader.Reader.Parse` | jsoncpp/jsoncpp.cpp:1238-1282 | outcome of the specification; an error is reported if and only if the parse fails |
| `JsonGrammar.NumeralToken` | jsoncpp/jsoncpp.cpp:1409-1431 | a number in front of white space, a comma or a closing bracket is one number token |
| `JsonGrammar.QuotedToken` | jsoncpp/jsoncpp.cpp:1403-1406 | a quoted string is one string token, whatever follows |
| `JsonGrammar.ReadsTree` | jsoncpp/jsoncpp.cpp:1284-1775 | for all features and old values, a text that spells any syntax tree, dropped nulls included, with white space and with comments where the reader skips them, is read as the value seen in the tree with the cursor just behind it; it throws if and only if the nesting exceeds the stack limit, and fails if no value is seen |
| `JsonGrammar.ReadsItems` | jsoncpp/jsoncpp.cpp:1735-1775 | the same for the elements of an array, with the closing bracket behind nothing where the features make it the end |
| `JsonGrammar.ReadsFields` | jsoncpp/jsoncpp.cpp:1671-1733 | the same for the members of an object, put in one after the other |
| `JsonGrammar.ObjectSeenIff` | jsoncpp/jsoncpp.cpp:1671-1733 | members in any order make an object if and only if all values and names can be read, names are shorter than 2^30, and none is repeated where that is refused |
| `JsonGrammar.ParsesTree` | jsoncpp/jsoncpp.cpp:1238-1282 | the same for a whole document, with `strictRoot` and `failIfExtra` |
| `JsonGrammar.SpelledAlike` | jsoncpp/jsoncpp.cpp:1238-1282 | texts of the same lexemes, with whatever white space everywhere and whatever comments where the reader skips them, are parsed alike |
| `JsonRoundTrip.IntegerToken` | jsoncpp/jsoncpp.cpp:1787-1865 | a printed integer is a number token with its value, small unsigned integers as signed |
| `JsonRoundTrip.StringToken` | jsoncpp/jsoncpp.cpp:4329-4404 | a printed string is a string token with the string as its value |
| `JsonRoundTrip.SeenIffKept` | jsoncpp/jsoncpp.cpp:1284-1775 | the syntax tree of a printed tree has that tree in normal form as its value if and only if nulls were printed, or the reader allows dropped ones and no array is just one null, or there is no null |
| `JsonRoundTrip.ParsesPrinted` | jsoncpp/jsoncpp.cpp:1238-1775 | for all features, all white space and comments, with and without dropped nulls: parsing a printed tree returns it in normal form (unless it is deeper than the stack limit or a scalar under `strictRoot`) if the nulls survive; otherwise nothing that is accepted is the tree |
| `JsonWriter.FastWriter.Write` | jsoncpp/jsoncpp.cpp:4427-4487 | appends the compact text of the tree |
| `JsonWriter.FastSpells` | jsoncpp/jsoncpp.cpp:4435-4487 | that text spells the lexemes of the tree, null being the empty list of lexemes under `dropNullPlaceholders` |
| `JsonStyledWriter.StyledWriter.IsMultilineArray` | jsoncpp/jsoncpp.cpp:5109-5134 | measuring prints the elements into the buffer only, and the buffered texts spell the elements |
| `JsonStyledWriter.StyledWriter.WriteArrayValue` | jsoncpp/jsoncpp.cpp:5059-5107 | on one line or on many, buffered or not, an array is printed as its lexemes |
| `JsonStyledWriter.StyledWriter.Write` | jsoncpp/jsoncpp.cpp:4981-5057 | the styled text spells the same lexemes: layout is white space only, and the indentation is restored |
| `JsonPrintParse.FastPrintAndParse` | jsoncpp/jsoncpp.cpp:4427-4487 | FastWriter and reader composed, with or without `dropNullPlaceholders`: the tree comes back if and only if its nulls survive |
| `JsonPrintParse.StyledPrintAndParse` | jsoncpp/jsoncpp.cpp:4981-5134 | styled writer and reader composed, for every layout setting and both null symbols: the tree comes back if and only if its nulls survive |
| `JsonPrintParse.SameTree` | jsoncpp/jsoncpp.cpp:1238-1282 | printed texts that differ in white space and comments only are parsed alike |
| `JsonPrintParse.LoneNullIsLost` | jsoncpp/jsoncpp.cpp:4437-4441 | an example: with dropped nulls the array of one null and the empty array have the same text |
| `JsonStability.LessIsTotal` | jsoncpp/jsoncpp.cpp:2703-2718 | any two names are equal or ordered |
| `JsonStability.LessIsTransitive` | jsoncpp/jsoncpp.cpp:2703-2718 | the order of names is transitive |
| `JsonStability.PutKeepsOrder` | jsoncpp/jsoncpp.cpp:3464-3480 | setting a member keeps the names in strict order, hence unique |
| `JsonStability.ParsedIsFine` | jsoncpp/jsoncpp.cpp:1238-1775 | whatever the text and the features, the tree in a fresh root has 64-bit integers, ordered short names and a depth within the stack limit, even when the parse fails |
| `JsonStability.ReadingIsStable` | jsoncpp/jsoncpp.cpp:1238-1775 | whatever text was read: if the tree has no doubles, printing it with `emitUTF8` in any layout and reading it again under the same features gives the same tree if its nulls survive, and never the same tree otherwise |
| `JsonLeniency.CommentIsAccepted` | jsoncpp/jsoncpp.cpp:1591-1603 | a C-style comment is accepted if and only if it is closed or the text ends with a slash |
| `JsonLeniency.OpenCommentIsAccepted` | jsoncpp/jsoncpp.cpp:1591-1603 | `/*/` at the end of a text counts as a comment |
| `JsonLeniency.SingleQuoteOpensComment` | jsoncpp/jsoncpp.cpp:1408-1417 | with single quotes off, a token that starts with one is a comment if and only if a slash follows, or an asterisk and then text that is closed or ends with a slash; otherwise it is an error |
| `JsonLeniency.QuoteOpensComment` | jsoncpp/jsoncpp.cpp:1408-1417 | an example of such a comment |
| `JsonLeniency.BracketBehindComment` | jsoncpp/jsoncpp.cpp:1740-1750 | behind an opening bracket or a comma a comment hides the bracket that closes the array: it is accepted only with `allowDroppedNullPlaceholders`, and then has one null more |
| `JsonLeniency.ColonBehindComment` | jsoncpp/jsoncpp.cpp:1706-1711 | in front of a colon a comment makes the object fail, whether comments are allowed or not |
| `JsonLeniency.BareMinusIsZero` | jsoncpp/jsoncpp.cpp:1787-1865 | a bare minus is read as the document 0 |
| `JsonLeniency.TrailingCommaAcceptedIff` | jsoncpp/jsoncpp.cpp:1677-1685 | an object with any members in any order and a comma behind the last one is accepted, as the object without the comma, if and only if that object would be and trailing commas are allowed or its last name is empty |
| `JsonLeniency.CommaBehindEmptyName` | jsoncpp/jsoncpp.cpp:1677-1685 | an example that no feature allows |
| `JsonRfc.NumberIsNumeral` | jsoncpp/jsoncpp.cpp:1621-1646 | the numbers of section 6 of RFC 8259 are number tokens |
| `JsonRfcStrings.StringIsQuoted` | jsoncpp/jsoncpp.cpp:1647-1669 | the strings of section 7 of RFC 8259 are string tokens |
| `JsonRfcStrings.DecodedAsMeant` | jsoncpp/jsoncpp.cpp:1900-2002 | whatever is between the quotes: it is decoded if and only if its escapes are those of section 7 and high surrogates are followed by an escape, and then to its meaning, given by a table of the short escapes, the number of four digits in either case, UTF-8 by division and the formula for surrogate pairs |
| `JsonRfcStrings.ReadableIffPaired` | jsoncpp/jsoncpp.cpp:1953-1976 | for a string of section 7 only the surrogates matter |
| `JsonRfc.RfcTextAcceptedIff` | jsoncpp/jsoncpp.cpp:1238-1775 | with any features, a text of the grammar of RFC 8259 is accepted if and only if its strings and numbers can be decoded, names are short and are not repeated where that is refused, it is within the stack limit, and it is no scalar under `strictRoot`; its value is the meaning of its parts: strings as they are meant, 64-bit integers exact, other numbers as the library reads them, the last value for a repeated name |
| `JsonRfc.LoneSurrogateIsRefused` | jsoncpp/jsoncpp.cpp:1953-1976 | an example of a text of the grammar that is refused under all features |
| `JsonStrict.CleanIsRfc` | jsoncpp/jsoncpp.cpp:1238-1775 | without features that extend the grammar, an accepted text that consists of JSON tokens with no bracket closed right behind a comma is a text of the grammar of RFC 8259 |
| `JsonStrict.RfcIsClean` | jsoncpp/jsoncpp.cpp:1386-1492 | the texts of the grammar consist of JSON tokens, and close no bracket right behind a comma |
| `JsonStrict.StrictIffRfc` | jsoncpp/jsoncpp.cpp:2166-2180 | both directions: without those features (strict mode, for one), accepted and consisting of JSON tokens with no bracket closed right behind a comma is the same as being a text of RFC 8259 that can be read |
| `JsonFeatures.BomIsSkipped` | jsoncpp/jsoncpp.cpp:1257-1258 | a byte order mark is skipped with `skipBom`, and refused without |
| `JsonFeatures.ExtraText` | jsoncpp/jsoncpp.cpp:1260-1267 | a comma or closing bracket behind the document, whatever follows it, makes it fail exactly with `failIfExtra` |
| `JsonFeatures.SpecialFloats` | jsoncpp/jsoncpp.cpp:1433-1475 | `NaN` and the infinities with their signs have their IEEE bits with `allowSpecialFloats`, and fail without |
| `JsonFeatures.NumericNames` | jsoncpp/jsoncpp.cpp:1689-1697 | an integer as a name is its decimal text with `allowNumericKeys`, and none without |
| `JsonFeatures.SingleQuoted` | jsoncpp/jsoncpp.cpp:1407-1412 | a single-quoted string is one token; a double quote in it cuts off the rest of its value |
| `JsonComma.MembersAgree` | jsoncpp/jsoncpp.cpp:1671-1733 | for all texts, depths and features: the member loop gives what the documented loop (comments, then a comma or the end) gives, unless a comment directly behind a value is followed by another token; then the documented loop fails |
| `JsonComma.AcceptedAsDocumentedIff` | jsoncpp/jsoncpp.cpp:1717-1729 | a document is acceptable as documented if and only if the reader accepts it and meets no such junk; without junk both outcomes are the same |
| `JsonComma.CommentsPassWhetherAllowedOrNot` | jsoncpp/jsoncpp.cpp:1671-1733 | `allowComments` makes no difference to the tokens of the member loop |
| `JsonComma.JunkForComma` | jsoncpp/jsoncpp.cpp:1717-1729 | an example: an invalid token passes for the comma between members |
| `JsonComma.JunkMayFailAlike` | jsoncpp/jsoncpp.cpp:1717-1729 | a refused document in which the junk makes no difference |

## Left out

- Argon2Threads.NeverStuck: thread creation, joining and memory allocation always succeed.
- Argon2Threads.StepKeepsInv: a worker reads the two input blocks in one step and writes the new block in another;
  by `Argon2Threads.LoadMayBeSplit` and `Argon2Threads.StoreMayBeSplit` finer steps make no difference.
- Argon2.Argon2Ctx: the method takes the single-threaded fill; that each schedule of the threaded one gives the same
  tag is `Argon2.ThreadedRunGivesTag`. Blocks are separate arrays of 128 words, not ranges of one allocation.
- Blake2b.Blake2bState: the field `last_node` is omitted, as no function of the file sets it.
- BlamkaWords.VectorOpsAreScalar: the XOP instruction set is not modelled.
- Nowide.StackString: no copy constructor and no assignment; no reading of a string that was never converted.
- ProxyCache: `Handle::assign`, empty handles and allocators that call back into the cache are not modelled.
- JsonSyntax.Doubles: reading and printing doubles is left to the C++ library, a parameter here; round trips are
  stated for trees without doubles.
- JsonValue.Value: arrays are dense; comments, offsets and the position of errors as line and column are omitted.
- JsonStyledWriter.StyledWriter.Write: trees without comments.
- JsonText.ValueToQuotedString: `isprint` is that of the C locale; lengths stay below 2^32.
- JsonReader.Reader: a thrown exception ends the parse; what it leaves of the tree is not described.
- Argon2 memory wiping, custom allocators, `GENKAT` output, null arguments other than those of the context.
- `jni/api`, `jni/http`, `jni/exceptions.cpp` and the marshalling classes: generated code over calls into the JVM.
- `kulloclient`: interfaces and plain records only; their implementations are not part of this model.
- `breakpadwrapper`, `tools` and the file, stream and environment wrappers of nowide: operating system plumbing.
- The deprecated `Json::Reader`, `StyledWriter` and `StyledStreamWriter`, and `Path`: near copies, or experimental.
