# memhunt in Dafny

memhunt slides a window over a memory dump, tries every window as a key, and keeps the
windows whose decryption passes an oracle. This project models that orchestration and
proves what a reported hit means and which keys cannot be missed.

The ciphers, hashes and tag checks are foreign to the repository. A block cipher is a record
of an encrypt and a decrypt function that undo each other on accepted keys and whole blocks
(`Ciphers.BlockCipher.WellFormed`); a stream cipher, a hash, an HMAC and an authenticated
decryption are arbitrary functions with fixed output lengths. `XorCipher` is a concrete
instance of the block-cipher hypotheses. Oracles are records too, as the source's trait
objects are, so every theorem about hunts holds for any oracles; the six built-in ones are
defined in `Oracles`.

## Files

| file | contents |
|---|---|
| Bytes, Words, Results | byte strings, XOR, blocks, the big-endian codec, 32-bit words, Option and Result |
| Windows | exhaustive window search, parallel splitting, the atomic counter |
| Limited | several searches into one limited list |
| Ciphers, Padding | keyed permutations, ECB and CBC (NIST SP 800-38A, sections 6.1 and 6.2), PKCS#7 (section 6.3 of RFC 5652) and zero padding |
| Utf8, Varint, Oracles | UTF-8 (section 4 of RFC 3629), base-128 integers, oracles and the best match |
| Carrying, Samples | when a verdict on a part of a text carries to the whole, and texts on which it does not |
| IvSearch, Report, BlockHunt | the ECB/CBC hunt and its IV search |
| BlockTheorems, BlockCompleteness, PaddedHits | what its hits prove, which keys it cannot miss, and what padding labels mean |
| CounterMode, StreamHunt | CTR (NIST SP 800-38A, section 6.5), the GCM keystream (NIST SP 800-38D, sections 6.2, 6.5, 7.1) and the keystream hunts |
| Config, Scan, ScanTheorems, ScanOutcome | configurations, the whole scan, the theorems about it, and when it succeeds |
| KeySchedule, AesSbox, Sm4Schedule, ScheduleScan, Tables | detection of AES (FIPS-197, section 5.2) and SM4 (GB/T 32907-2016, section 7.3) key schedules |
| HashScan | preimage and HMAC-key search |
| CipherList, Spelling | parsing and printing of cipher lists, and the ways to spell them |

In each module a pure function says what a search returns, a method with the source's loops
and in-place updates is proved to return it, and the lemmas state what it means.

## Where the code differs from its own documentation

The model follows the code.

- The documentation lists `chacha20-poly1305` and `xchacha20-poly1305` as cipher names; every list that holds one is rejected (`CipherList.Poly1305IsRejected`, `CipherList.Poly1305NamesAreRejected`).
- It lists `all` as a scan option; the list it stands for mixes stream and block ciphers and is rejected by validation (`CipherList.AllIsAccepted`, `ScanTheorems.AllCannotBeScanned`).
- A comment in the key-schedule detector expects later round boundaries of a schedule to hit too; no window that starts at a later word of an AES schedule and fits inside it ever does, because the check always uses the first round constant (`KeySchedule.OnlyTheHeadHits`, `AesSbox.ScheduleHitsOnce`).
- PKCS#7 removal does not compare the padding length with the block size, and zero removal always reports success, so every ECB or CBC hit carries a padding label.
- A window that passes as ECB is not tried as CBC; `BlockCompleteness.CbcFoundIff` says exactly when a CBC key is reported.
- The HMAC-key search does not look at the limit on hits (`HashScan.HmacLimitIsIgnored`).
- A verdict is given on the verified head alone, and the rest of the decryption can contradict it: the plaintext behind the head for utf8, json and utf16le (`BlockTheorems.EcbVerdictCanFail`, `StreamHunt.CtrVerdictCanFail`), and in CBC block 0 in front of it for these and for gzip and protobuf (`BlockCompleteness.CbcVerdictCanFail`). `Carrying.BuiltinVerdictAroundIff` says exactly when it does not; `BuiltinVerdictCarriesIff` says it of hits.
- The head ends at a fixed byte: a message in a multi-byte encoding whose character is cut there is missed by the utf8 oracle (`StreamHunt.PrintableStreamFoundIff`, `BlockCompleteness.PrintableCbcFoundIff`).

## Model

| member | source | states |
|---|---|---|
| Windows.CollectIsExact | crates/memhunt-core/src/engine.rs:827-972 | a window search reports exactly the accepted offsets, each once, in increasing order |
| Windows.SplittingIsInvisible | crates/memhunt-core/src/engine.rs:827-830 | any binary splitting of the range, parts concatenated in order, gives the sequential result |
| Windows.InterleavingsAgree | crates/memhunt-core/src/engine.rs:830-831 | under every interleaving of the atomic increments a finished run has one increment per window, and the counter has grown by that number mod 2^64 |
| Limited.RunsAddUp | crates/memhunt-core/src/engine.rs:393-487 | however the increments of each of several searches interleave, the shared counter ends at the sum of their windows mod 2^64 |
| Windows.AtomicU64.FetchAddOne | crates/memhunt-core/src/engine.rs:831 | the counter stays the number of increments mod 2^64 |
| Ciphers.XorCipherIsWellFormed | crates/memhunt-core/src/cipher_adapter.rs:14-27 | the hypotheses on block ciphers have an instance |
| Ciphers.CbcDecryptBlocks | crates/memhunt-core/src/engine.rs:900-923 | CBC encryption of a CBC decryption is the ciphertext, block by block |
| Ciphers.CbcEncryptBlocks | crates/memhunt-core/src/engine.rs:900-923 | CBC decryption of a CBC encryption is the plaintext |
| Ciphers.CbcTailIsIvFree | crates/memhunt-core/src/engine.rs:865-882 | blocks 1..n decrypted without the IV are what real CBC decryption gives under any IV |
| Ciphers.CbcTailReencrypts | crates/memhunt-core/src/engine.rs:900-910 | encrypting that tail under IV = C0 gives every ciphertext block but the first |
| Padding.StripPkcs7 | crates/memhunt-core/src/engine.rs:236-253 | truncates in place iff the text ends in n >= 1 bytes of value n, by exactly those |
| Padding.StripZero | crates/memhunt-core/src/engine.rs:255-260 | pops exactly the trailing zero bytes and always reports success |
| Padding.RefillUndoesUnpad | crates/memhunt-core/src/engine.rs:988-994 | the stripped text, its label and the original length determine the original text |
| Padding.UnpadUndoesPad | crates/memhunt-core/src/engine.rs:236-253 | a PKCS#7-padded message comes back exactly, whatever precedes it |
| Padding.UnpadIsExact | crates/memhunt-core/src/engine.rs:236-260 | every text strips to exactly one remainder and label: PKCS#7 if it ends so, else all its trailing zeros |
| Padding.UnpadUndoesZeros | crates/memhunt-core/src/engine.rs:255-260 | a zero-padded message comes back exactly unless it ends in a zero byte or, unpadded, reads as PKCS#7 |
| Utf8.DecodeIsExact | crates/memhunt-core/src/oracle.rs:25-34 | a byte string is accepted with code points cs iff it is the RFC 3629 encoding of the scalar values cs; overlong forms and surrogates are rejected |
| Utf8.PlausibilityThreshold | crates/memhunt-core/src/engine.rs:268-280 | the score is at most 1000, and reaches 900 exactly on non-empty text with nine printable characters in ten, despite integer division |
| Utf8.PlausibilityIsExact | crates/memhunt-core/src/engine.rs:268-280 | the score is exactly the share of printable characters in permille, rounded down, and 0 without a character |
| Utf8.CountIsCardinality | crates/memhunt-core/src/engine.rs:268-280 | the characters counted are those at the printable positions |
| Utf8.PrintableRanges | crates/memhunt-core/src/oracle.rs:25-34 | printable are all characters but the controls other than tab, line feed and carriage return |
| Oracles.Utf8OracleIsThreshold | crates/memhunt-core/src/oracle.rs:19-35 | on every input the utf8 verdict is a score of at least 900 on the zero-stripped text |
| Oracles.Utf8IgnoresZeros | crates/memhunt-core/src/oracle.rs:19-35 | appending zero bytes never changes the utf8 verdict |
| Oracles.Utf16LeIgnoresZeroUnits | crates/memhunt-core/src/oracle.rs:110-137 | appending zero units never changes the utf16le verdict, for odd lengths too |
| Oracles.StripTrailingZeros | crates/memhunt-core/src/oracle.rs:233-239 | the loop returns the text without its trailing zero bytes |
| Oracles.StripZeroUnits | crates/memhunt-core/src/oracle.rs:114-118 | the loop strips whole zero units while four bytes are left |
| Carrying.KnownIsBothStable | crates/memhunt-core/src/oracle.rs:86-90 | a found fragment is still found after text is added on either side |
| Carrying.GzipIsRightStable | crates/memhunt-core/src/oracle.rs:156-173 | text added on the right never revokes a gzip verdict |
| Carrying.ProtobufIsRightStable | crates/memhunt-core/src/oracle.rs:211-226 | text added on the right never revokes a protobuf verdict |
| Utf8.MostlyPrintableParts | crates/memhunt-core/src/oracle.rs:25-34 | text around a well-formed one is mostly printable with it iff each part decodes on its own and nine in ten of all characters are printable |
| Carrying.Utf8VerdictAround | crates/memhunt-core/src/oracle.rs:19-35 | an accepted text inside a longer one: utf8 accepts the longer one iff what is around it decodes, up to the last non-zero byte, and nine in ten of all characters are printable |
| Carrying.Utf8VerdictExtends | crates/memhunt-core/src/oracle.rs:19-35 | for every well-formed text that goes on: zeros change nothing, anything else is accepted iff it decodes and nine in ten of all characters are printable |
| Carrying.JsonVerdictAround | crates/memhunt-core/src/oracle.rs:51-70 | an accepted json text inside a longer one: the text in front must pass as json itself, and what follows must decode to printable characters only |
| Carrying.GzipVerdictAround | crates/memhunt-core/src/oracle.rs:156-173 | an accepted gzip text inside a longer one: the text in front must start like gzip itself |
| Carrying.ProtobufVerdictAround | crates/memhunt-core/src/oracle.rs:211-226 | an accepted protobuf text inside a longer one: the text in front, with a varint that may run past it, must start with the tag and length of a field that fits |
| Carrying.Utf16LeVerdictAround | crates/memhunt-core/src/oracle.rs:110-137 | an accepted utf16le text inside a longer one: whole units around it, and three in four of all units ASCII up to the last non-zero one |
| Carrying.BuiltinVerdictAroundIff | crates/memhunt-core/src/oracle.rs:19-226 | for each of the six oracles, exactly when a text with an accepted one inside is accepted: always for known |
| Carrying.BuiltinVerdictExtendsIff | crates/memhunt-core/src/oracle.rs:19-226 | the same with nothing in front: always for gzip and protobuf, too |
| Carrying.PrintableSliceIff | crates/memhunt-core/src/oracle.rs:19-35 | a part of a printable text passes as utf8 iff neither of its ends cuts through a character |
| Samples.RestRevokes | crates/memhunt-core/src/oracle.rs:19-137 | for utf8, json and utf16le a block behind an accepted text can revoke the verdict |
| Samples.FrontRevokes | crates/memhunt-core/src/oracle.rs:19-226 | for all but known a block in front of an accepted text can, whatever follows |
| Oracles.BestMatchIsBest | crates/memhunt-core/src/oracle.rs:272-281 | None iff no oracle verifies; otherwise a verifying one of maximal rank, the last on ties |
| Oracles.IsBestUnique | crates/memhunt-core/src/oracle.rs:272-281 | that oracle is unique |
| Oracles.RankOrder | crates/memhunt-core/src/oracle.rs:272-281 | high confidence beats medium, medium beats low |
| Oracles.StructureBeatsText | crates/memhunt-core/src/oracle.rs:272-281 | json, gzip or known is named before utf8, utf16le or protobuf where both accept, in either order |
| Oracles.KnownIff | crates/memhunt-core/src/oracle.rs:86-90 | known accepts exactly the texts that contain the non-empty fragment somewhere |
| Oracles.GzipIff | crates/memhunt-core/src/oracle.rs:156-173 | gzip accepts exactly the texts with the magic number, the deflate method and no reserved flag |
| Oracles.StartsJsonIff | crates/memhunt-core/src/oracle.rs:51-70 | json text starts with an object and its first key, or with an array and one of the characters 0 to 9, quote, bracket, brace, space, tab |
| Oracles.ProtobufIff | crates/memhunt-core/src/oracle.rs:211-226 | protobuf accepts exactly a tag of field 1 to 15 with a length that is positive and fits |
| Oracles.EncodedFieldIsAccepted | crates/memhunt-core/src/oracle.rs:211-226 | every non-empty value of such a field, encoded with its length, is accepted |
| Carrying.CountAsciiIsCardinality | crates/memhunt-core/src/oracle.rs:110-137 | the units counted are those from space to tilde |
| Varint.ReadVarint | crates/memhunt-core/src/oracle.rs:192-203 | the shift-and-or loop returns the sum of the 7-bit groups times 128^i mod 2^64 and the bytes consumed, and None iff no terminator is among the first ten bytes |
| Varint.GroupStep | crates/memhunt-core/src/oracle.rs:196 | or is addition at every step, and of the tenth group only the lowest bit survives |
| Varint.ReadInvertsEncode | crates/memhunt-core/src/oracle.rs:192-203 | reading inverts the canonical encoder for every u64, with any bytes behind it, and consumes 1 to 10 bytes |
| Varint.ReadExtends | crates/memhunt-core/src/oracle.rs:192-203 | a value once read does not depend on bytes further right |
| IvSearch.FindIv | crates/memhunt-core/src/engine.rs:508-550 | returns the best min(8, accepted) windows: ranked, members of the accepted ones, every one left out ranking after all of them |
| IvSearch.AcceptedIsExact | crates/memhunt-core/src/engine.rs:515-537 | the accepted candidates are exactly the windows whose decryption passes an oracle, at distinct offsets |
| IvSearch.CandidatesAreJudged | crates/memhunt-core/src/engine.rs:515-537 | every accepted candidate is the window at its offset, with the block 0 it gives, the confidence and name of the best oracle on that block and the verified tail, and the block's exact score |
| IvSearch.WindowIsAcceptedIff | crates/memhunt-core/src/engine.rs:515-537 | a window is accepted exactly when some oracle accepts the text it gives |
| IvSearch.TopIsUnique | crates/memhunt-core/src/engine.rs:539-549 | the order is strict, so only one sequence is such an answer |
| IvSearch.BestIvsIsTop | crates/memhunt-core/src/engine.rs:538-549 | the answer of the search is that sequence |
| IvSearch.FirstIsBest | crates/memhunt-core/src/engine.rs:538-549 | a candidate ranked before all others is the first answer |
| IvSearch.FirstIsMaximal | crates/memhunt-core/src/engine.rs:538-549 | the first answer has maximal confidence, among those maximal score, among those minimal offset |
| BlockHunt.DecryptEach | crates/memhunt-core/src/engine.rs:839-843 | decrypts every block in place, failing iff the key is rejected and there is a block |
| BlockHunt.XorInto | crates/memhunt-core/src/engine.rs:878-880 | the byte loop is XOR with the mask |
| BlockHunt.DecryptTail | crates/memhunt-core/src/engine.rs:866-882 | blocks 1..count decrypted and XORed with the ciphertext block before each |
| BlockHunt.ResolveIv | crates/memhunt-core/src/engine.rs:918-949 | block 0 from the fixed IV, else from the best candidate, else unknown |
| BlockHunt.FinalizeHit | crates/memhunt-core/src/engine.rs:976-1010 | strips the plaintext in place and reports it with its padding label |
| BlockHunt.HuntWindow | crates/memhunt-core/src/engine.rs:830-970 | the verdict on one window: ECB first, then CBC, with the early exits |
| BlockHunt.Hunt | crates/memhunt-core/src/engine.rs:812-973 | all verdicts in offset order, one count per window |
| BlockTheorems.HitsAreExact | crates/memhunt-core/src/engine.rs:827-972 | hits are exactly the windows with a verdict, once each, in offset order |
| BlockTheorems.EveryHitIsWitness | crates/memhunt-core/src/engine.rs:830-971 | refilling the plaintext with the reported padding and encrypting under the reported key and IV gives back the ciphertext; without an IV, every block but the first |
| BlockTheorems.Block0IsConsistent | crates/memhunt-core/src/engine.rs:918-949 | a reported IV lies in the dump at its offset and decodes block 0 to what is reported |
| BlockTheorems.CandidatesAreTop | crates/memhunt-core/src/engine.rs:925-948 | the IV candidates of a hit are the best eight, and the IV reported is the first of them |
| BlockTheorems.NoIvIff | crates/memhunt-core/src/engine.rs:925-949 | no IV is reported exactly when none is given and no search finds one; block 0 then reads 0x3F throughout |
| PaddedHits.PaddingIsExact | crates/memhunt-core/src/engine.rs:976-1010 | plaintext and label of every ECB or CBC hit are the only ones its whole decryption allows |
| PaddedHits.ZeroHitIsStripped | crates/memhunt-core/src/engine.rs:255-260 | a hit labelled with zero padding does not end in a zero byte |
| PaddedHits.EcbZeroCompleteness | crates/memhunt-core/src/engine.rs:833-863 | an ECB message padded with zeros whose head is accepted is reported exactly |
| PaddedHits.CbcZeroCompleteness | crates/memhunt-core/src/engine.rs:900-967 | a CBC hit with the true IV of a zero-padded message reports exactly the message |
| PaddedHits.CbcTextFoundIff | crates/memhunt-core/src/engine.rs:845-898 | however a text was padded, with the right fixed IV its key is reported iff the oracles reject the ECB head and accept blocks 1..2, or the only block |
| BlockTheorems.JudgedInside | crates/memhunt-core/src/engine.rs:844-898 | the text the oracles were asked about lies in the whole decryption: at its start for ECB, behind block 0 for CBC, all of it for a single CBC block |
| BlockTheorems.VerdictCarries | crates/memhunt-core/src/engine.rs:844-898 | the very oracle that judged a hit, the best of those accepting the head, accepts the whole decryption: right-stable ones for ECB, both-stable ones always, any for a single CBC block |
| BlockTheorems.KnownHitContainsFragment | crates/memhunt-core/src/oracle.rs:86-90 | the whole decryption of an ECB or CBC hit judged by a known fragment contains it |
| BlockTheorems.FramedHitIsFramed | crates/memhunt-core/src/oracle.rs:156-226 | the whole decryption of an ECB hit judged as gzip or protobuf is accepted as such |
| BlockTheorems.BuiltinVerdictCarriesIff | crates/memhunt-core/src/engine.rs:844-898 | for an ECB or CBC hit judged by any of the six oracles, exactly when that oracle accepts the whole decryption; in CBC, block 0 in front counts |
| BlockTheorems.Utf8HitIsUtf8Iff | crates/memhunt-core/src/engine.rs:844-898 | for an ECB or CBC hit judged as utf8, exactly when the whole decryption is utf8 |
| BlockTheorems.EcbVerdictCanFail | crates/memhunt-core/src/engine.rs:844-863 | for every cipher and key, an ECB hit judged as utf8, json or utf16le on its two head blocks whose whole decryption that oracle rejects |
| BlockCompleteness.CbcVerdictCanFail | crates/memhunt-core/src/engine.rs:865-967 | for every cipher and key and every oracle but known, a CBC hit judged by it on blocks 1..2 whose whole decryption, with the true IV, it rejects |
| BlockCompleteness.CbcCompleteness | crates/memhunt-core/src/engine.rs:865-967 | a recognised CBC key in the dump is reported at its offset with the message right from block 1 on, and with the right fixed IV exactly the message, also when it is a single block |
| BlockCompleteness.CbcFoundIff | crates/memhunt-core/src/engine.rs:845-898 | a planted CBC key is reported as CBC iff the oracles reject its ECB head and accept blocks 1..2, or the only block as the fixed IV decrypts it |
| BlockCompleteness.PrintableCbcFoundIff | crates/memhunt-core/src/engine.rs:845-898 | with the utf8 oracle the CBC key of a printable message is reported iff the ECB reading is rejected and blocks 1..2 neither start nor end inside a character |
| BlockCompleteness.EcbCompleteness | crates/memhunt-core/src/engine.rs:833-863 | an ECB key in the dump whose head is accepted is reported with exactly the message |
| BlockCompleteness.AnyMessageCanBePlanted | crates/memhunt-core/src/engine.rs:865-967 | any message, under any key and IV, can be planted in a dump |
| BlockCompleteness.PinningHappens | crates/memhunt-core/src/engine.rs:865-967 | the hypotheses of CBC completeness and IV pinning hold together for every cipher, key, non-zero IV and message that pads to two blocks, with an oracle that knows the text |
| BlockCompleteness.OnlyTheIvDecodes | crates/memhunt-core/src/engine.rs:519-523 | a window decodes block 0 to the true block 0 iff it is the true IV |
| BlockCompleteness.JudgedText | crates/memhunt-core/src/engine.rs:913-925 | at the true IV the text judged is the first min(3, n) plaintext blocks |
| BlockCompleteness.IvPinning | crates/memhunt-core/src/engine.rs:913-953 | if those blocks are accepted and every other accepted value ranks strictly lower, the true IV is reported at its first offset and the message is complete |
| BlockCompleteness.IvReportedIff | crates/memhunt-core/src/engine.rs:925-949 | the IV offset reported is the accepted window that ranks before all others, if one does |
| BlockCompleteness.IvPinningIff | crates/memhunt-core/src/engine.rs:913-953 | the true IV is reported iff one of its occurrences ranks before every other accepted window, ties won by offset, and then the message is complete |
| CounterMode.IncrementCounter | crates/memhunt-core/src/engine.rs:552-555 | adds one to the 16-byte big-endian counter in place, mod 2^128 |
| CounterMode.IncrementCounter32 | crates/memhunt-core/src/engine.rs:557-560 | adds one to the last four bytes mod 2^32 and never changes the first twelve |
| CounterMode.GcmJ0 | crates/memhunt-core/src/engine.rs:562-567 | nonce followed by the 32-bit number 1 |
| CounterMode.StreamDecrypt | crates/memhunt-core/src/engine.rs:569-604 | the chunked loop gives byte j = ct[j] XOR E(K, ctr(j/16))[j%16], partial last chunk included, and the source's failures |
| CounterMode.XorStreamInvolution | crates/memhunt-core/src/engine.rs:569-604 | decrypting twice is the identity, and decryption commutes with taking a prefix |
| CounterMode.GcmCounterBlocks | crates/memhunt-core/src/engine.rs:557-600 | GCM counter blocks keep the nonce, coincide iff their indices agree mod 2^32, and equal J0 iff the counter word is 1 |
| CounterMode.GcmCounterNeverRepeats | crates/memhunt-core/src/engine.rs:557-600 | below 2^32 blocks all counter blocks differ from each other and from J0 |
| CounterMode.GcmKeystreamNeverRepeats | crates/memhunt-core/src/engine.rs:557-600 | so do the keystream blocks, also from the block that masks the tag |
| CounterMode.CtrCounterBlocksDistinct | crates/memhunt-core/src/engine.rs:552-555 | CTR counter blocks less than 2^128 apart differ, through carry and wrap-around |
| StreamHunt.HuntStream | crates/memhunt-core/src/engine.rs:638-690 | all verdicts of the CTR/GCM hunt in offset order, one count per window |
| StreamHunt.HuntStreamCipher | crates/memhunt-core/src/engine.rs:728-781 | the same for ChaCha20 and XChaCha20 |
| StreamHunt.StreamHitIsWitness | crates/memhunt-core/src/engine.rs:683-688 | an oracle hit's plaintext encrypts back to the ciphertext, the verified head is its prefix, and the judging oracle accepts all of it if right-stable |
| StreamHunt.StableHitIsAccepted | crates/memhunt-core/src/engine.rs:683-688 | a hit judged by a known fragment, as gzip or as protobuf is accepted as a whole |
| StreamHunt.BuiltinVerdictCarriesIff | crates/memhunt-core/src/engine.rs:683-688 | for a hit judged by any of the six oracles, exactly when that oracle accepts the whole plaintext |
| StreamHunt.CtrVerdictCanFail | crates/memhunt-core/src/engine.rs:683-688 | for every cipher, key and nonce, a CTR hit judged as utf8, json or utf16le on its 32-byte head whose whole plaintext that oracle rejects |
| StreamHunt.StreamFoundIff | crates/memhunt-core/src/engine.rs:683-688 | the key a message was encrypted under is reported, with exactly the message, iff an oracle accepts its head |
| StreamHunt.PrintableStreamFoundIff | crates/memhunt-core/src/engine.rs:683-688 | with the utf8 oracle the key of a printable message is reported iff the head does not end inside a character |
| StreamHunt.TaggedHitsAreVerified | crates/memhunt-core/src/engine.rs:666-681 | with a tag exactly the keys that verify are reported, with what they open to, whatever the oracles |
| StreamHunt.CounterFoundIff | crates/memhunt-core/src/engine.rs:683-690 | CTR, or GCM without a tag: the key at an offset is reported, with exactly the message, iff an oracle accepts the first 32 bytes |
| StreamHunt.GcmTagFoundIff | crates/memhunt-core/src/engine.rs:666-681 | with a GCM tag: iff key, nonce, ciphertext, tag and associated data open |
| StreamHunt.ChaChaFoundIff | crates/memhunt-core/src/engine.rs:728-781 | the ChaCha hunts without a tag |
| StreamHunt.Poly1305TagFoundIff | crates/memhunt-core/src/engine.rs:728-781 | the ChaCha hunts with a tag |
| Config.AcceptedIsDrivable | crates/memhunt-core/src/engine.rs:282-377 | an accepted configuration gives every consumer a nonce, tag and IV of the length it needs, and never mixes families |
| Config.AcceptedIff | crates/memhunt-core/src/engine.rs:282-377 | a configuration with a cipher is accepted iff every cipher is drivable and, once one is a stream cipher, all are, no IV is given and the mode is not CTR |
| Config.RejectionIsTrue | crates/memhunt-core/src/engine.rs:282-377 | what each rejection says of the configuration is so |
| Config.MixedIffRejected | crates/memhunt-core/src/engine.rs:286-298 | a configuration is rejected for mixing families iff it names a stream cipher and a block cipher |
| Limited.LimitIsPrefix | crates/memhunt-core/src/engine.rs:470-474 | a limit gives a prefix of the unlimited result and never more windows |
| Limited.SearchStops | crates/memhunt-core/src/engine.rs:470-474 | a search that succeeds, under any limit, has run exactly the parts before the limit is first reached and returns their hits, cut at the limit |
| Limited.StoppingSucceeds | crates/memhunt-core/src/engine.rs:470-474 | a search whose parts succeed up to where it can stop succeeds |
| Limited.SearchFails | crates/memhunt-core/src/engine.rs:398-475 | a search that fails does so at the first failing part, which it gets to, with that part's error |
| Limited.TriedEach | crates/memhunt-core/src/hash_scan.rs:165-206 | parts of w windows each make j times w after j parts |
| Limited.NoLimitRunsAll | crates/memhunt-core/src/engine.rs:398-475 | without a limit every part runs, and the search fails iff one part does |
| Scan.ScanCipher | crates/memhunt-core/src/engine.rs:398-468 | one cipher's hits and windows, its errors, and the skip of a dump shorter than the key before the ciphertext is looked at |
| Scan.RunScan | crates/memhunt-core/src/engine.rs:380-487 | any configuration may be passed: the result is an error or the specified hits and count, and no hunt or adapter is called outside its contract |
| ScanOutcome.ScanSucceedsIff | crates/memhunt-core/src/engine.rs:380-475 | a scan succeeds iff the configuration is accepted, there is an oracle or a GCM tag, and every cipher up to where the limit is first reached is ready |
| ScanOutcome.BlockScanSucceedsIff | crates/memhunt-core/src/engine.rs:398-440 | in block mode, over an aligned ciphertext, iff the fixed IV fits the ciphers whose key fits the dump |
| ScanOutcome.PartSucceedsIff | crates/memhunt-core/src/engine.rs:414-468 | one cipher's turn succeeds iff its key does not fit the dump or the ciphertext is non-empty, aligned and the fixed IV fits |
| ScanOutcome.PartErrorIsTrue | crates/memhunt-core/src/engine.rs:414-468 | what each error of a turn says is so |
| ScanOutcome.ScanFailsAt | crates/memhunt-core/src/engine.rs:380-475 | a scan that fails names the rejection, the missing oracle, or the error of the first cipher that is not ready |
| ScanOutcome.ScanIsConcatenation | crates/memhunt-core/src/engine.rs:398-475 | its hits are those of the hunts one after the other, cut at the limit |
| ScanOutcome.CbcScanOutright | crates/memhunt-core/src/engine.rs:380-487 | from the dump to the message with nothing assumed of the scan: it succeeds, and reports exactly the message at the key's offset iff the oracles recognise it |
| ScanOutcome.NoIvIsReported | crates/memhunt-core/src/engine.rs:925-949 | a scan without an IV and without a search for one reports none, and 0x3F for block 0 |
| ScanTheorems.MaxHitsIsPrefix | crates/memhunt-core/src/engine.rs:470-474 | whenever the unlimited scan succeeds, limit m > 0 succeeds with its first m hits |
| ScanTheorems.ScanIsOrdered | crates/memhunt-core/src/engine.rs:398-475 | under any limit, hits are ordered by cipher then offset, with distinct ciphers at most one per cipher and offset |
| ScanTheorems.TriedIsSum | crates/memhunt-core/src/engine.rs:393-487 | under any limit, the windows tried are the sum of the window counts of the ciphers up to where the limit is first reached |
| ScanTheorems.ScanCountsUnderInterleaving | crates/memhunt-core/src/engine.rs:393-487 | however workers share the windows of each cipher and interleave their increments, the counter ends at the windows tried mod 2^64 |
| ScanTheorems.BlockScanHitsAreWitnesses | crates/memhunt-core/src/engine.rs:398-475 | under any limit, every hit of a cipher in block mode is a witness over the whole ciphertext for a cipher asked for |
| ScanTheorems.StreamScanHitsAreWitnesses | crates/memhunt-core/src/engine.rs:398-475 | under any limit and without a tag, every hit of a keystream cipher encrypts back to the whole ciphertext |
| ScanTheorems.ScanHitsOf | crates/memhunt-core/src/engine.rs:398-475 | under any limit, every reported hit with the label of a cipher is one of its hunt, and every hit of its hunt is reported unless hits that precede it use up the limit; with distinct ciphers exactly those |
| ScanTheorems.ScanFindsCbcKeyIff | crates/memhunt-core/src/engine.rs:380-487 | end to end, under any limit and up to its cut: the key of a planted CBC ciphertext is among those reported iff the oracles recognise the message |
| ScanTheorems.ScanFindsCbcMessage | crates/memhunt-core/src/engine.rs:380-487 | end to end: with the right fixed IV the hit at the key's offset carries exactly the message |
| ScanTheorems.ScanFindsCbcTail | crates/memhunt-core/src/engine.rs:380-487 | end to end without an IV: the message is right from the second block on |
| ScanTheorems.ScanPinsIv | crates/memhunt-core/src/engine.rs:380-487 | end to end: an IV that stands out in the dump is reported at its first offset, with exactly the message |
| ScanTheorems.ScanFindsEcbMessage | crates/memhunt-core/src/engine.rs:380-487 | end to end: an ECB key whose head is accepted is reported with exactly the message |
| ScanTheorems.ScanFindsStreamMessageIff | crates/memhunt-core/src/engine.rs:380-487 | end to end: the key of a keystream ciphertext is reported, with exactly the message, iff an oracle accepts the head |
| ScanTheorems.ScanReportsVerifiedKeys | crates/memhunt-core/src/engine.rs:380-487 | end to end with a tag: exactly the keys are reported under which nonce, ciphertext, tag and associated data open |
| ScanTheorems.AllCannotBeScanned | crates/memhunt-core/src/engine.rs:286-298 | no scan with the ciphers of an accepted list that holds the token all ever runs |
| KeySchedule.RconTable | crates/memhunt-core/src/keysched.rs:50-52 | the table is repeated doubling in GF(2^8), and only its first entry is 1 |
| KeySchedule.ExpandWordIsFips | crates/memhunt-core/src/keysched.rs:86-100 | within real schedule lengths the clamp is never reached and the step is the standard's |
| KeySchedule.RotWordRotates | crates/memhunt-core/src/keysched.rs:90-93 | RotWord is a rotation by eight bits |
| AesSbox.ExampleWord | crates/memhunt-core/src/keysched.rs:86-100 | the first word of the example in appendix A.1 of FIPS-197 |
| KeySchedule.ScheduleHeadValid | crates/memhunt-core/src/keysched.rs:107-126 | Some(4) iff the window is the first nk + 4 words of the expansion of its own first nk words, although dump words are fed in |
| KeySchedule.ScheduleIsDetected | crates/memhunt-core/src/keysched.rs:107-126 | a full schedule is detected at its head with the right key |
| KeySchedule.OnlyTheHeadHits | crates/memhunt-core/src/keysched.rs:117-125 | of the windows any number of words into a full schedule, exactly the head hits: at multiples of nk for every S-box, elsewhere for every S-box under which no word is its own first-round operand |
| AesSbox.NoFixedAesWord | crates/memhunt-core/src/keysched.rs:30-47 | the AES S-box is one: four substitutions never flip just the lowest bit |
| AesSbox.ScheduleHitsOnce | crates/memhunt-core/src/keysched.rs:129-155 | with the AES S-box a full schedule yields one hit of its size, at its head, and none at a later word inside it |
| KeySchedule.WordsDetermineSchedule | crates/memhunt-core/src/keysched.rs:86-100 | schedules that agree on any nk consecutive words agree everywhere, master key included |
| Words.RotationsAreRotations | crates/memhunt-core/src/keysched.rs:233-236 | the rotations on four bytes are the rotations of the 32-bit word |
| Sm4Schedule.TPrimeIsDiffusion | crates/memhunt-core/src/keysched.rs:225-236 | bit by bit, T' adds to the substituted word its rotations by 13 and 23 |
| Tables.ExampleRoundKey | crates/memhunt-core/src/keysched.rs:243-270 | the first round key of the example in appendix A of GB/T 32907-2016 |
| Sm4Schedule.SubstituteBytes | crates/memhunt-core/src/keysched.rs:225-231 | the buffer loop applies the S-box to every byte |
| Sm4Schedule.UpdateRing | crates/memhunt-core/src/keysched.rs:254-270 | the in-place ring holds K4..K7 of the linear recurrence: every slot is read at the right age |
| Sm4Schedule.ScheduleHeadValid | crates/memhunt-core/src/keysched.rs:243-276 | Some(1) iff the 20 bytes are a key followed by its first round key |
| Sm4Schedule.WordsDetermineKey | crates/memhunt-core/src/keysched.rs:254-270 | master keys whose recurrences agree on four consecutive words are equal |
| ScheduleScan.ScanKeySchedules | crates/memhunt-core/src/keysched.rs:129-169 | the hits of the three AES sizes in order, then SM4, and the windows tried |
| ScheduleScan.AllHitsAreExact | crates/memhunt-core/src/keysched.rs:129-169 | the whole answer holds exactly the heads of AES schedules of the three sizes and the SM4 keys before their first round key |
| ScheduleScan.AllHitsInOrder | crates/memhunt-core/src/keysched.rs:129-169 | AES-128, AES-192, AES-256, then SM4, each by increasing offset |
| ScheduleScan.AesHitsAreExact | crates/memhunt-core/src/keysched.rs:139-151 | AES hits are exactly the schedule heads, in offset order, with the key bytes found there |
| ScheduleScan.Sm4HitsAreExact | crates/memhunt-core/src/keysched.rs:280-296 | SM4 hits are exactly the keys followed by their first round key, in offset order |
| ScheduleScan.PlantedScheduleIsReported | crates/memhunt-core/src/keysched.rs:129-155 | any dump that holds a full AES schedule yields a hit at its head |
| Tables.ScanDump | crates/memhunt-core/src/keysched.rs:129-169 | the scan with the S-boxes and constants of the two standards: its hits and the windows tried |
| HashScan.ScanLength | crates/memhunt-core/src/hash_scan.rs:177-199 | one length: exactly the matching offsets, although one buffer is reused for all of them |
| HashScan.HmacLengths | crates/memhunt-core/src/hash_scan.rs:243-249 | the lengths searched, in order: the range, then those of 16, 24, 32, 64 outside it |
| HashScan.HmacLengthsAreExact | crates/memhunt-core/src/hash_scan.rs:243-249 | they are the range and the four sizes, no length twice |
| HashScan.ScanPreimages | crates/memhunt-core/src/hash_scan.rs:152-220 | hits algorithm by algorithm up to the limit, and the error at the first algorithm of another output length reached |
| HashScan.ScanHmacKeys | crates/memhunt-core/src/hash_scan.rs:224-290 | all hits over those lengths in that order, whatever limit is passed, and the sum of the window counts |
| HashScan.HmacKeysAreExact | crates/memhunt-core/src/hash_scan.rs:243-276 | a window is reported, with its bytes, iff its length is searched and the MAC of the message under it as the key is the target; no (offset, length) pair twice |
| HashScan.HitsAreOrdered | crates/memhunt-core/src/hash_scan.rs:175-206 | hits come length by length in the order of the list, each by increasing offset |
| HashScan.HmacLimitIsIgnored | crates/memhunt-core/src/hash_scan.rs:243-276 | for every limit there is a search that returns more hits |
| HashScan.HitsAreExact | crates/memhunt-core/src/hash_scan.rs:175-200 | a pair (offset, length) is reported iff its length is searched, it fits, and its digest or MAC is the target |
| HashScan.NoPairTwice | crates/memhunt-core/src/hash_scan.rs:243-276 | with distinct lengths no pair is reported twice |
| HashScan.PreimagesAreExact | crates/memhunt-core/src/hash_scan.rs:165-206 | under any limit, a successful preimage scan has searched the first j algorithms: it reports the windows whose digest is the target, in order, cut at the limit, and nothing that matches is missed unless the limit is used up; j times the windows of the range were tried |
| HashScan.PreimageScanFails | crates/memhunt-core/src/hash_scan.rs:165-174 | a scan fails at the first algorithm of another output length that it gets to, which the error names; without a limit it succeeds only if there is none |
| CipherList.ParseTokens | crates/memhunt-core/src/engine.rs:102-143 | the token loop: ciphers and mode accumulated, or the first error |
| CipherList.ParseList | crates/memhunt-core/src/engine.rs:99-160 | the whole parser, from the text to the selection or error |
| CipherList.AcceptedIsWellFormed | crates/memhunt-core/src/engine.rs:144-160 | an accepted list is non-empty, strictly sorted, and all AES outside block mode |
| CipherList.AcceptedIff | crates/memhunt-core/src/engine.rs:99-160 | a list is accepted iff it has a token, every token is known and none a Poly1305 one, all select one mode, and outside block mode all are AES |
| CipherList.Poly1305IsRejected | crates/memhunt-core/src/engine.rs:127-153 | a list with a Poly1305 token is always rejected |
| CipherList.Poly1305NamesAreRejected | crates/memhunt-core/src/engine.rs:127-153 | each of the four Poly1305 names is rejected as a list of its own |
| Spelling.ShortNameMeans | crates/memhunt-core/src/engine.rs:119-143 | the ciphers that aes, aes128, aes192, aes256, chacha, xchacha, 3des and tdes stand for, the AES names in every mode |
| Spelling.CaseIsIgnored | crates/memhunt-core/src/engine.rs:102-105 | lists that differ in the case of letters alone parse alike |
| Spelling.BlanksAreIgnored | crates/memhunt-core/src/engine.rs:102 | white space around the parts of a list does not matter |
| Spelling.BlankPartIsSkipped | crates/memhunt-core/src/engine.rs:102 | nor do empty and blank parts |
| Spelling.RejectionIsTrue | crates/memhunt-core/src/engine.rs:110-153 | what each parse error says is so |
| CipherList.AllIsAccepted | crates/memhunt-core/src/engine.rs:102-160 | the list `all` parses to every cipher, in block mode |
| CipherList.AllSelectsEverything | crates/memhunt-core/src/engine.rs:102-160 | so does every accepted list that holds the token all |
| CipherList.ParseInvertsPrint | crates/memhunt-core/src/engine.rs:99-160 | printing a well-formed selection and parsing it gives the selection back |
| CipherList.AcceptedIsFixedPoint | crates/memhunt-core/src/engine.rs:99-160 | every accepted list is a fixed point of printing and reparsing |

## Left out

- The ciphers, hashes, HMAC and tag verification themselves: foreign code, arbitrary functions here. The length limit of the ChaCha keystream is not modelled.
- rayon threads and work stealing: only splitting, ordered concatenation and atomic increments are modelled.
- The `stop` flag: it is never written, so no window is ever skipped by it.
- Hexadecimal and UTF-8 renderings in reports: hits hold the bytes themselves.
- Error texts: errors are values that carry the numbers the texts show.
- Timing statistics.
- `sort_by`, `sort` and `dedup` of the standard library: `IvSearch.Sort` and `CipherList.SortedDistinct` stand for them.
- The parser of oracle lists and of hash lists: they would add easy members only.
- A window length of 0: the source's `windows` call does not allow it, so the hash searches require a minimum of 1.
- The command line and the MCP server.
- S-box correctness: the schedule theorems hold for any S-box, and `AesSbox.SubByte` holds the AES entries as a search tree and `Tables.Sm4Row` those of SM4 row by row instead of in an array; SM4's CK table is given by its formula.
