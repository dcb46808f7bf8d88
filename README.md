# ByteMessage in Dafny

A Dafny model of the ByteMessage library, a C++ library for fixed-layout binary messages. The model has three parts, with proofs about each.

- **Checksum functions.** Every function has the shape `T f(const uint8_t *data, size_t length)`:
  - one's-complement sums of 8, 16 and 32 bits, each in an optimized and a textbook version;
  - two's-complement word sums of 8, 16, 32 and 64 bits;
  - XOR lane checksums of 8, 16, 32 and 64 bits;
  - Fletcher-8, Fletcher-16 and Fletcher-32;
  - Luhn's mod-N check digit: textbook, optimized, and base 256.
- **Buffer views.** These read and write a shared message buffer in place:
  - `ByteMessageField<T>`: an integer stored big-endian, or a bool in one byte;
  - `ByteMessageFieldBlob`: a fixed-size byte region;
  - `ByteMessageChecksum<T>`: a checksum over the bytes in front of it.
- **The `ByteMessage<TYPE, SIZE>` container**, which owns the buffer.

Each checksum function becomes a Dafny `method` that follows the C++ loops step by step. This includes:
- the block loops;
- the carry-folding `while (sum >> W)` loops;
- the backward pointer walk of the Luhn functions;
- the lane arrays of the XOR sums.

Each method's `ensures` ties its result to a reference definition, which is a recursive `function`:
- `OneSum.Checksum`: the complement of the one's-complement sum of the zero-padded big-endian words, with end-around carry (RFC 1071);
- `TwoSum.Sum`: the word sum modulo 2^(8k);
- `XorSum.Checksum`: the XOR lanes packed big-endian;
- `Fletcher.Reference` over nibbles, bytes or 16-bit words: both running sums reduced after every digit;
- `Luhn.CheckDigit`: the weighted digit-sum check digit.

Lemmas relate the reference definitions to each other and to what the source promises:
- round trips;
- behaviour on empty input;
- lane splitting;
- when the optimized and textbook versions agree.

Where a function as written departs from its reference, the model has two parts. It keeps the function as written, with a lemma that exhibits the difference. Beside it is a corrected version proved equal to the reference (see Findings).

The platform is fixed to 64-bit glibc:
- `uint_fast8_t` has 8 bits;
- `uint_fast16_t`, `uint_fast32_t` and `uint_fast64_t` have 64 bits.

Every accumulator that can wrap is reduced modulo 2^64 (`Bytes.FAST_MOD`) or 2^8 where the C++ wraps. Lemmas prove when no wrap happens. The block limits of the C++ are the ones it selects for 64-bit accumulators:
- Fletcher-16: 380368696;
- Fletcher-32: 23726746;
- Luhn: the limit computed at `bm_checksum_luhn.cpp:118`.

Further modelling choices:
- **Pointer plus length.** Each function takes `data: seq<Byte>`.
- **Bytes.** A byte is the `int` subset `Byte` (0..255). Shifts and masks of non-negative values are written as products, quotients and remainders by powers of 256. An OR of disjoint shifted bytes is written as a sum.
- **Function pointer.** The function pointer of `ByteMessageChecksum<T>` becomes the enumeration `Checksums.Algorithm`, with one constructor per two-argument checksum function. A call through the pointer becomes `Checksums.Run`. The aliases `internet_checksum` (`onesum16_checksum`) and `fletcher_checksum` (`fletcher16_checksum`) are the constructors `OneSum16` and `Fletcher16`.
- **Buffer views.** The views are classes over an `array<Byte>` with an offset. A view's `set`, `operator=` and constructor are methods that modify the array. Every one of them is specified through `Regions.Write`, which writes a byte string at an offset and leaves everything else unchanged.
- **`memcpy` and `memset`.** These are the loops `Regions.CopyInto` and `Regions.Fill`.
- **Integer fields.** `htons`/`htonl`/`htonll` and their inverses are modelled as big-endian encode/decode (`Fields.Encode`, `Fields.Decode`). The signed casts are the two's-complement reinterpretation (`Fields.ToBits`, `Fields.FromBits`).
- **Container.** `ByteMessage` is the class `Messages.Message`. Its `type()` and `size()` are functions of the constants `msgType` and `size`.

## Model

| member | source | states |
|---|---|---|
| OneSum.CarriedIsEndAround | src/bm_checksum_onesum.cpp:19-21 | folding `(sum >> W) + (sum & M)` until no carry is left gives the end-around remainder of the sum modulo M = 2^W - 1 (0 only for 0, otherwise in 1..M) |
| OneSum.FoldCarries | src/bm_checksum_onesum.cpp:83-85 | the `while (sum >> W)` loop computes the carried-out sum for any starting value |
| OneSum.FoldIsEndAround | src/bm_checksum_onesum.cpp:32 | one fold of a value at most 2M is already the end-around remainder, so the textbook per-word fold keeps the sum at most M |
| OneSum.EndAroundIsShiftedMod | src/bm_checksum_onesum.cpp:140-142 | for a positive sum, the end-around remainder is `(x - 1) % M + 1` |
| OneSum.ChecksumOfEmpty | src/bm_checksum_onesum.cpp:24 | for no data, the one's-complement checksum of every width is all ones (0xFF, 0xFFFF, 0xFFFFFFFF) |
| OneSum.AppendedChecksumVerifies | src/bm_checksum_onesum.cpp:52-60 | for data whose length is a whole number of words, appending the checksum big-endian gives data whose checksum is 0 |
| OneSum.InternetChecksumVerifies | src/bm_checksum_onesum.cpp:52-55 | the RFC 1071 round trip: appending the 16-bit checksum to even-length data and recomputing gives 0 |
| OneSum.OneSum8Textbook | src/bm_checksum_onesum.cpp:28-37 | onesum8_checksum_textbook returns the complement of the one's-complement sum of the bytes |
| OneSum.AddBlock8 | src/bm_checksum_onesum.cpp:14-17 | one block adds exactly its bytes to the sum |
| OneSum.OneSum8 | src/bm_checksum_onesum.cpp:8-25 | onesum8_checksum with 256-byte blocks returns the same value as the textbook version, for every input |
| OneSum.OddByte | src/bm_checksum_onesum.cpp:79-81 | a lone last byte is the high byte of a zero-padded final word |
| OneSum.TextbookTail16 | src/bm_checksum_onesum.cpp:101-110 | after the word loop, the odd byte plus a single fold and the complement give the checksum, for every length (the comment's length bound is not needed) |
| OneSum.TextbookWords16 | src/bm_checksum_onesum.cpp:94-100 | the word loop leaves at most one byte and keeps the folded sum equal to the one's-complement sum of the words so far |
| OneSum.OneSum16Textbook | src/bm_checksum_onesum.cpp:92-111 | onesum16_checksum_textbook is the Internet checksum of RFC 1071 for every length |
| OneSum.AddBlock16 | src/bm_checksum_onesum.cpp:73-77 | the byte-pair loop of one block adds exactly its words and leaves `blocklength % 2` bytes |
| OneSum.OneSum16 | src/bm_checksum_onesum.cpp:64-89 | onesum16_checksum (internet_checksum) returns the RFC 1071 checksum, equal to the textbook version for every length |
| OneSum.TextbookWords32 | src/bm_checksum_onesum.cpp:153-161 | the word loop stops at the last whole word with the folded sum of the whole words |
| OneSum.OneSum32Textbook | src/bm_checksum_onesum.cpp:149-169 | onesum32_checksum_textbook as written, remainder loop adding `*data` each time |
| OneSum.OneSum32TextbookCorrected | src/bm_checksum_onesum.cpp:149-169 | with the remainder loop adding the trailing bytes in turn, the result is the one's-complement checksum of the zero-padded 32-bit words |
| OneSum.AddBlock32 | src/bm_checksum_onesum.cpp:127-134 | the word loop of one block adds its whole words and stops at the last whole word of the block |
| OneSum.AddRepeatedTail | src/bm_checksum_onesum.cpp:136-138 | the remainder loop as written (the same loop as lines 163-165): the pointer is not advanced, so it adds the first trailing byte at each of the top `modulus` byte positions |
| OneSum.OneSum32 | src/bm_checksum_onesum.cpp:116-146 | onesum32_checksum as written, remainder loop after every block |
| OneSum.OneSum32Corrected | src/bm_checksum_onesum.cpp:116-146 | with the remainder added once, after the last block, and bytes taken in turn, onesum32_checksum returns the one's-complement checksum of the 32-bit words |
| OneSum.TextbookAsWrittenAgrees | src/bm_checksum_onesum.cpp:163-165 | with 0 or 1 leftover bytes the textbook 32-bit version is correct |
| OneSum.TextbookAsWrittenDiffers | src/bm_checksum_onesum.cpp:163-165 | for [1, 2] the textbook 32-bit version returns 0xFEFEFFFF where the checksum is 0xFEFDFFFF |
| OneSum.OptimizedAgreesWhenShort | src/bm_checksum_onesum.cpp:121-142 | for at most 1016 bytes (one block) the optimized 32-bit version returns what the textbook version returns |
| OneSum.OptimizedAgreesWhenWhole | src/bm_checksum_onesum.cpp:116-146 | for lengths divisible by 4 the optimized 32-bit version returns the one's-complement checksum |
| OneSum.BlocksOfWholeWords | src/bm_checksum_onesum.cpp:123-143 | for whole words, the block loop with carry folding computes the end-around remainder of the running sum plus all remaining words |
| OneSum.OptimizedAsWrittenDiffers | src/bm_checksum_onesum.cpp:136-138 | for 1016 zero bytes followed by 1, the optimized version returns 0xFDFFFFFF while the textbook version and the checksum are 0xFEFFFFFF |
| TwoSum.Sum | src/bm_checksum_twosum.cpp:24 | the k-byte word sum is below 2^(8k), the range of the declared return type |
| TwoSum.SumOfEmpty | src/bm_checksum_twosum.cpp:3-73 | no data sums to 0 for every width |
| TwoSum.SumAppend | src/bm_checksum_twosum.cpp:32-39 | the sum of a ++ b, for a of whole words, is the sum of a plus the sum of b modulo 2^(8k) |
| TwoSum.AddWord | src/bm_checksum_twosum.cpp:16-19 | adding the next word to the wrapped accumulator keeps it the wrapped sum of the words read |
| TwoSum.ReadTail | src/bm_checksum_twosum.cpp:41-44 | the trailing bytes are assembled left-aligned into a zero-padded word |
| TwoSum.AddTail | src/bm_checksum_twosum.cpp:45-46 | adding the padded tail to the 64-bit sum and masking to W bits gives the word sum modulo 2^W |
| TwoSum.Sum8 | src/bm_checksum_twosum.cpp:3-10 | sum8_checksum is the sum of the bytes modulo 256 |
| TwoSum.Words16 | src/bm_checksum_twosum.cpp:16-19 | the pair loop consumes all whole words and holds their sum modulo 2^64 |
| TwoSum.Sum16 | src/bm_checksum_twosum.cpp:12-25 | sum16_checksum is the sum of big-endian 16-bit words modulo 2^16, an odd last byte as the high byte |
| TwoSum.Words32 | src/bm_checksum_twosum.cpp:32-39 | the word loop consumes all whole 32-bit words and holds their sum modulo 2^64 |
| TwoSum.Sum32 | src/bm_checksum_twosum.cpp:27-47 | sum32_checksum is the sum of big-endian 32-bit words modulo 2^32, the last 1-3 bytes left-aligned and zero-padded |
| TwoSum.Words64 | src/bm_checksum_twosum.cpp:54-65 | the word loop consumes all whole 64-bit words and holds their sum modulo 2^64 |
| TwoSum.WordSum64 | src/bm_checksum_twosum.cpp:49-71 | before the return, the accumulator holds the 64-bit word sum modulo 2^64 |
| TwoSum.Sum64 | src/bm_checksum_twosum.cpp:49-73 | sum64_checksum as written returns the masked value |
| TwoSum.Sum64AsWrittenIsLowHalf | src/bm_checksum_twosum.cpp:72 | what sum64_checksum returns is the 64-bit word sum modulo 2^32 |
| TwoSum.Sum64AsWrittenDiffers | src/bm_checksum_twosum.cpp:72 | for the word 0x00000001_00000000 the result is 0 but the 64-bit sum is 2^32 |
| TwoSum.Sum64Corrected | src/bm_checksum_twosum.cpp:49-73 | without the mask, sum64_checksum returns the sum of big-endian 64-bit words modulo 2^64 |
| XorSum.XorAssoc | src/bm_checksum_xor.cpp:7 | `^` on bytes is associative |
| XorSum.XorSelf | src/bm_checksum_xor.cpp:7 | a byte XORed with itself is 0 |
| XorSum.XorZero | src/bm_checksum_xor.cpp:4-7 | 0 is the neutral element of `^`, so the zero-initialised lanes start empty |
| XorSum.ResultBytes | src/bm_checksum_xor.cpp:46-49 | big-endian byte i of the k-byte result is the XOR of the input bytes at positions congruent to i modulo k |
| XorSum.ChecksumOfEmpty | src/bm_checksum_xor.cpp:3-80 | no data gives 0 for every width |
| XorSum.LanesStep | src/bm_checksum_xor.cpp:36-39 | taking the byte at position p changes only lane p mod k |
| XorSum.XorInto | src/bm_checksum_xor.cpp:43 | `sum[j] ^= *data++` moves the lanes over data[..p] to the lanes over data[..p+1] |
| XorSum.Xor8 | src/bm_checksum_xor.cpp:3-10 | xor8_checksum is the XOR of all bytes |
| XorSum.Xor16Step | src/bm_checksum_xor.cpp:18-21 | one round of the pair loop updates the high and low lanes with the two bytes it reads |
| XorSum.Xor16Tail | src/bm_checksum_xor.cpp:22-25 | a lone last byte goes into the high lane only |
| XorSum.Xor16 | src/bm_checksum_xor.cpp:12-28 | xor16_checksum packs lane 0 into the high byte and lane 1 into the low byte |
| XorSum.XorWord32 | src/bm_checksum_xor.cpp:35-40 | one round of the four-byte loop updates the four lanes |
| XorSum.XorRest | src/bm_checksum_xor.cpp:41-44 | the remainder loop finishes the lanes over all the data |
| XorSum.Xor32 | src/bm_checksum_xor.cpp:30-50 | xor32_checksum packs the four lanes big-endian |
| XorSum.XorWord64 | src/bm_checksum_xor.cpp:57-66 | one round of the eight-byte loop updates the eight lanes |
| XorSum.Xor64 | src/bm_checksum_xor.cpp:52-80 | xor64_checksum packs the eight lanes big-endian |
| XorSum.PartialGroup | src/bm_checksum_xor.cpp:67-70 | a trailing partial group of r bytes leaves lanes r..k-1 as they were after the last whole group |
| XorSum.LanesSplit | src/bm_checksum_xor.cpp:57-70 | when the length of a is a multiple of k, every lane of a ++ b is the lane of a XOR the lane of b |
| XorSum.ChecksumSplit | src/bm_checksum_xor.cpp:57-79 | when the length of a is a multiple of k, byte i of the packed checksum of a ++ b is byte i of the checksum of a XOR byte i of the checksum of b |
| XorSum.AppendedChecksumVerifies | src/bm_checksum_xor.cpp:30-50 | appending the checksum big-endian to data of whole groups gives data whose checksum is 0 |
| Fletcher.ReferenceClosedForm | src/bm_checksum_fletcher.cpp:9-13 | reducing after every digit gives sum1 = the digit total and sum2 = the total of the running totals, both modulo base |
| Fletcher.ReferenceDefers | src/bm_checksum_fletcher.cpp:43-44 | the reference sums are the unbounded sums reduced once at the end, so the modulus can be deferred |
| Fletcher.RunCongruent | src/bm_checksum_fletcher.cpp:43-44 | starting states congruent modulo base lead to final states congruent modulo base |
| Fletcher.RunBound | src/bm_checksum_fletcher.cpp:20-24 | after n digits of at most m, sum1 grows by at most m*n and sum2 by at most n*sum1 + m*n(n+1)/2; this counts the residues carried in from the previous block |
| Fletcher.BlocksAreReference | src/bm_checksum_fletcher.cpp:35-45 | a block loop whose block limit fits the accumulator computes the reference sums |
| Fletcher.PackParts | src/bm_checksum_fletcher.cpp:84 | packing sum2 in the high half and sum1 in the low half is injective and fits the result width |
| Fletcher.NibblesOf | src/bm_checksum_fletcher.cpp:8-12 | the digits of Fletcher-8 are each byte's high nibble, then its low nibble |
| Fletcher.Fletcher8 | src/bm_checksum_fletcher.cpp:3-16 | fletcher8_checksum is the per-nibble Fletcher checksum modulo 15, sum2 in the high nibble |
| Fletcher.NibbleRound | src/bm_checksum_fletcher.cpp:9-13 | one byte (two nibbles, the first with the modulus deferred) keeps both sums equal to the reduced nibble totals |
| Fletcher.Fletcher8Result | src/bm_checksum_fletcher.cpp:15 | the final sums, packed `sum2 << 4 \| sum1`, are the Fletcher-8 checksum |
| Fletcher.BlockLimits | src/bm_checksum_fletcher.cpp:20-32 | the Fletcher-16 limit 380368696 meets the comment's bound n(n+1)/2*255 < 2^64 but not the bound with carried-in residues; 380368695 meets both; the Fletcher-32 limit meets both |
| Fletcher.ByteBlock | src/bm_checksum_fletcher.cpp:38-42 | the inner loop holds the byte sums with every addition wrapping modulo 2^64 |
| Fletcher.ByteBlocks | src/bm_checksum_fletcher.cpp:35-45 | the outer loop computes the block-by-block sums, reduced modulo 255 after each block |
| Fletcher.Fletcher16 | src/bm_checksum_fletcher.cpp:18-47 | fletcher16_checksum (fletcher_checksum) as written, with blocks of 380368696 bytes |
| Fletcher.Fletcher16OneBlock | src/bm_checksum_fletcher.cpp:35-46 | for input no longer than one block, fletcher16_checksum returns the Fletcher-16 checksum |
| Fletcher.Fletcher16Corrected | src/bm_checksum_fletcher.cpp:18-47 | with the block limit lowered to 380368695, the function returns the Fletcher-16 checksum for all inputs |
| Fletcher.OverflowInputExists | src/bm_checksum_fletcher.cpp:31 | an input that overflows sum2 in its second block exists: 380368695 zeros, 254, then 380368696 bytes 255 |
| Fletcher.Fletcher16AsWrittenDiffers | src/bm_checksum_fletcher.cpp:31 | on that input fletcher16_checksum returns 3326 where the Fletcher-16 checksum is 3582 |
| Fletcher.WordOf | src/bm_checksum_fletcher.cpp:71-72 | Fletcher-32 digit j is bytes 2j and 2j+1 as a big-endian 16-bit word |
| Fletcher.WordsAtMost | src/bm_checksum_fletcher.cpp:71-73 | every Fletcher-32 digit is at most 65535 |
| Fletcher.WordBlock | src/bm_checksum_fletcher.cpp:70-76 | the inner loop reads whole words two bytes at a time, with 64-bit wrapping sums |
| Fletcher.WordBlocks | src/bm_checksum_fletcher.cpp:67-79 | the byte blocks of 23726746 bytes are blocks of 11863373 whole words: since the limit is even, no word straddles two blocks |
| Fletcher.PairsReference | src/bm_checksum_fletcher.cpp:67-79 | the blocks over the byte pairs compute the reference sums of the words |
| Fletcher.OddResult | src/bm_checksum_fletcher.cpp:80-83 | an odd last byte is one more word, as its high byte, added with the modulus |
| Fletcher.Fletcher32 | src/bm_checksum_fletcher.cpp:49-85 | fletcher32_checksum is the Fletcher-32 checksum of the big-endian 16-bit words modulo 65535, sum2 in the high half |
| Luhn.CheckDigit | src/bm_checksum_luhn.cpp:73 | the check digit is below intbase (256 for base 0) |
| Luhn.CheckDigitCompletes | src/bm_checksum_luhn.cpp:53-73 | a digit c below intbase makes the weighted digit sum plus c divisible by intbase exactly when c is the check digit |
| Luhn.DigitSumIs | src/bm_checksum_luhn.cpp:64 | the digit sum of a term is `addend / intbase + addend % intbase` |
| Luhn.LeadingZero | src/bm_checksum_luhn.cpp:57 | factors are fixed by distance from the end, so a leading zero byte does not change the check digit |
| Luhn.TextbookStep | src/bm_checksum_luhn.cpp:62-71 | one loop round keeps sum equal to the reduced weighted sum of the bytes read |
| Luhn.LuhnChecksumTextbook | src/bm_checksum_luhn.cpp:49-74 | luhn_checksum_textbook returns the check digit for every base |
| Luhn.LuhnOfEmpty | src/bm_checksum_luhn.cpp:153 | no data gives 0, for the check digit and for luhn_checksum |
| Luhn.BlockLimitFacts | src/bm_checksum_luhn.cpp:118 | for base other than 1 the block limit is even, at least 2, and (intbase-1)*(limit+1) fits in 64 bits |
| Luhn.DoubledTerm | src/bm_checksum_luhn.cpp:133 | for a byte below intbase, subtracting intbase-1 from a doubled byte of at least intbase gives a value below intbase congruent to its digit sum |
| Luhn.PairSumCongruent | src/bm_checksum_luhn.cpp:129-140 | with bytes below intbase, the pair terms of the loop sum to a value congruent to the weighted sum |
| Luhn.PairsUnwrapped | src/bm_checksum_luhn.cpp:129-140 | with bytes below intbase, the sum never wraps within a block |
| Luhn.PairLoop | src/bm_checksum_luhn.cpp:129-140 | the inner loop walks the pairs backward with 64-bit wrapping additions |
| Luhn.BlockLoop | src/bm_checksum_luhn.cpp:126-143 | the outer loop computes the blocked sum, reduced after every block |
| Luhn.BlocksReduce | src/bm_checksum_luhn.cpp:126-143 | with bytes below intbase the blocked sum is the weighted sum of the even part modulo intbase, so below intbase after each block |
| Luhn.TailIsRem | src/bm_checksum_luhn.cpp:146-152 | for an odd length, the first byte is added last with factor 2, and the single subtraction at line 151 leaves the sum reduced |
| Luhn.AddFirstByte | src/bm_checksum_luhn.cpp:144-152 | for an odd length, the first byte is added doubled and reduced as in the pair loop, then one subtraction of intbase; the result is the tail that `TailIsRem` shows reduced |
| Luhn.BlockedLoop | src/bm_checksum_luhn.cpp:101-154 | the optimized driver (block limit, block loop, odd first byte, final `(intbase - sum) % intbase` in 64 bits) returns the blocked value, which `BlockedIsCheckDigit` equates with the check digit |
| Luhn.FinishIsCheckDigit | src/bm_checksum_luhn.cpp:144-153 | the odd byte and the final `(intbase - sum) % intbase` give the check digit |
| Luhn.BlockedIsCheckDigit | src/bm_checksum_luhn.cpp:101-154 | the optimized algorithm gives the check digit when every byte is below intbase |
| Luhn.LuhnChecksum | src/bm_checksum_luhn.cpp:101-154 | luhn_checksum as written, which equals luhn_checksum_textbook when every byte is below intbase |
| Luhn.LuhnChecksumDiffers | src/bm_checksum_luhn.cpp:133-138 | for bytes [25, 0] in base 10, luhn_checksum returns 5 and the check digit is 3 |
| Luhn.LuhnChecksumCorrected | src/bm_checksum_luhn.cpp:101-154 | with every term reduced to its digit sum, luhn_checksum returns the check digit for all bytes |
| Luhn.Luhn256Pair | src/bm_checksum_luhn.cpp:180-187 | one round of the base-256 pair loop keeps the 8-bit sum equal to the weighted sum of the suffix modulo 256 |
| Luhn.Luhn256First | src/bm_checksum_luhn.cpp:189-192 | the odd first byte completes the weighted sum modulo 256 |
| Luhn.Luhn256Checksum | src/bm_checksum_luhn.cpp:174-195 | luhn256_checksum returns the base-256 check digit for every input, equal to luhn_checksum_textbook(d, 0) |
| Luhn.Base256Agrees | src/bm_checksum_luhn.cpp:101-154 | luhn_checksum(d, 0) equals the base-256 check digit for every input, since every byte is below 256 |
| Checksums.Compute | src/ByteMessageChecksum.h:65 | every algorithm's value fits its return type T |
| Checksums.Run | src/ByteMessageChecksum.hpp:25 | a call through the function pointer returns that algorithm's value |
| Checksums.ComputeOfEmpty | src/ByteMessageChecksum.h:65 | no data gives all ones for the one's-complement sums and 0 for the Fletcher, two's-complement, XOR and Luhn-256 checksums |
| Regions.Write | src/ByteMessageFieldBlob.cpp:28 | writing w at p puts w at [p, p+\|w\|) and leaves every other byte unchanged |
| Regions.WriteSame | src/ByteMessageFieldBlob.cpp:13 | writing a region's own bytes back changes nothing, as self-assignment promises |
| Regions.WriteAdjacent | src/ByteMessageFieldBlob.cpp:28-30 | a copy followed by a fill right after it is one write of both |
| Regions.WriteFrame | src/ByteMessageField.hpp:15 | a write leaves every disjoint region unchanged |
| Regions.CopyInto | src/ByteMessageFieldBlob.cpp:28 | memcpy into the array writes the bytes at the offset and nothing else |
| Regions.Fill | src/ByteMessageFieldBlob.cpp:58 | memset writes n copies of the value at the offset and nothing else |
| Fields.Modulus | src/ByteMessageField.hpp:20-49 | a field of type T spans 2^(8*sizeof(T)) bit patterns |
| Fields.ToBits | src/ByteMessageField.hpp:24 | the cast to the unsigned type is the value modulo 2^N |
| Fields.FromBits | src/ByteMessageField.hpp:25 | the cast back gives a value of T whose bit pattern is the one read |
| Fields.FromToBits | src/ByteMessageField.hpp:32-33 | casting a signed value to unsigned and back gives the value |
| Fields.Encode | src/ByteMessageField.hpp:28 | set writes sizeof(T) bytes whose big-endian value is the bit pattern of v |
| Fields.Decode | src/ByteMessageField.hpp:29 | every byte string decodes to a value of T whose encoding it is |
| Fields.DecodeEncode | src/ByteMessageField.hpp:20-49 | decoding an encoded value of any integer type gives it back |
| Bytes.BeValueOfBeBytes | src/ByteMessageField.hpp:36 | the big-endian bytes of a value below 256^n read back as that value |
| Bytes.BeBytesOfBeValue | src/ByteMessageField.hpp:37 | bytes read big-endian and written back are the same bytes |
| Fields.SetKeepsOtherField | src/ByteMessageField.hpp:28 | setting one field leaves the value of every field that does not overlap it |
| Fields.Field.constructor | src/ByteMessageField.hpp:7-9 | binding a field to the buffer does not touch the buffer |
| Fields.Field.Get | src/ByteMessageField.hpp:29 | get returns the in-range value whose encoding is the field's bytes |
| Fields.Field.Set | src/ByteMessageField.hpp:20-49 | set writes the big-endian encoding at [pos, pos+sizeof(T)) and nothing else, and get then returns v |
| Fields.Field.Assign | src/ByteMessageField.hpp:12-17 | assignment copies the other field's bytes into this field's range, self-assignment included, and get then returns the other's old value |
| Fields.BoolByte | src/ByteMessageField.hpp:88 | true is stored as 1 and false as 0 |
| Fields.BoolField.constructor | src/ByteMessageField.hpp:71-72 | the bool constructor zeroes its byte and only that byte, so the field reads false |
| Fields.BoolField.Get | src/ByteMessageField.hpp:88 | get() is true exactly when the byte is not 0, so any nonzero byte reads as true, and a byte stored by set (0 or 1) reads back as its value |
| Fields.BoolField.Set | src/ByteMessageField.hpp:88-89 | set stores 1 or 0 and get then returns the value set |
| Fields.BoolField.Assign | src/ByteMessageField.hpp:81-85 | assignment copies the other field's byte and nothing else, self-assignment included |
| Blobs.Fitted | src/ByteMessageFieldBlob.cpp:25-32 | a region filled from data holds the first min(len, size) bytes of data and zeros after them |
| Blobs.FittedSplit | src/ByteMessageFieldBlob.cpp:28-30 | fitting is copying min(len, size) bytes and zero-filling the rest |
| Blobs.FittedWhole | src/ByteMessageFieldBlob.cpp:13 | data of exactly the region's size is copied whole |
| Blobs.Blob.constructor | src/ByteMessageFieldBlob.cpp:5-9 | the constructor zero-fills [pos, pos+size) and nothing else |
| Blobs.Blob.ZeroFill | src/ByteMessageFieldBlob.cpp:56-60 | zerofill(start) zeroes [start, size) of the region when start < size and changes nothing otherwise |
| Blobs.Blob.SetBytes | src/ByteMessageFieldBlob.cpp:25-32 | set(data, len) returns min(len, size) and makes the region the fitted data, nothing else changed |
| Blobs.Blob.SetAll | src/ByteMessageFieldBlob.cpp:36-39 | set(value) makes every region byte value, changes nothing else and returns size |
| Blobs.Blob.Get | src/ByteMessageFieldBlob.cpp:43-47 | get(out, len) copies min(len, size) region bytes to the start of out and returns that count; the message buffer is not written |
| Blobs.Blob.Assign | src/ByteMessageFieldBlob.cpp:12-21 | assignment copies min(size, other.size) bytes, zero-fills the rest, changes nothing outside the region, and self-assignment changes nothing |
| ChecksumFields.FieldType | src/ByteMessageChecksum.hpp:4-9 | the stored checksum field is the unsigned type of the algorithm's width |
| ChecksumFields.Computed | src/ByteMessageChecksum.hpp:23-26 | calc() depends only on the bytes before pos, not on the checksum's own bytes or anything after them |
| ChecksumFields.Stored | src/ByteMessageChecksum.hpp:29-32 | get() is the value whose encoding the checksum's bytes are, not recomputed |
| ChecksumFields.WithChecksum | src/ByteMessageChecksum.hpp:35-38 | update writes over the checksum's bytes only, and the buffer afterwards verifies |
| ChecksumFields.UpdateIdempotent | src/ByteMessageChecksum.hpp:35-44 | updating a buffer that already verifies changes nothing |
| ChecksumFields.ChecksumField.constructor | src/ByteMessageChecksum.hpp:4-9 | the constructor binds buffer, position and algorithm without touching the buffer |
| ChecksumFields.ChecksumField.Calc | src/ByteMessageChecksum.hpp:23-26 | calc() runs the algorithm over [0, pos) |
| ChecksumFields.ChecksumField.Get | src/ByteMessageChecksum.hpp:29-32 | get() reads the stored value and only reads the buffer |
| ChecksumFields.ChecksumField.Update | src/ByteMessageChecksum.hpp:35-38 | update() writes calc() big-endian at [pos, pos+sizeof(T)), nothing else changes, and check() then holds |
| ChecksumFields.ChecksumField.Check | src/ByteMessageChecksum.hpp:41-44 | check() is true exactly when calc() equals get() |
| ChecksumFields.ChecksumField.Assign | src/ByteMessageChecksum.hpp:15-20 | assignment copies only the stored checksum bytes, not the algorithm; self-assignment changes nothing |
| Messages.Blank | src/ByteMessage.hpp:4-8 | a new message holds TYPE in byte 0 and zeros everywhere else |
| Messages.Populated | src/ByteMessage.hpp:44-54 | the contents change only to an accepted raw message; a message holding its type keeps it |
| Messages.Message.constructor | src/ByteMessage.hpp:4-8 | the default constructor creates a fresh array holding TYPE in byte 0 and zeros elsewhere |
| Messages.Message.Copy | src/ByteMessage.hpp:11-14 | the copy constructor copies all SIZE bytes into a fresh array |
| Messages.Message.Type | src/ByteMessage.hpp:26-29 | type() is the byte a new message is stamped with in byte 0, and the first byte populate demands of a raw message |
| Messages.Message.Size | src/ByteMessage.hpp:32-35 | size() is the array's length |
| Messages.Message.Assign | src/ByteMessage.hpp:20-23 | operator= changes nothing |
| Messages.Message.Populate | src/ByteMessage.hpp:44-54 | populate returns true exactly when the raw message has SIZE bytes and starts with TYPE. If it does, the array becomes the raw message. Otherwise the array is unchanged |

## Left out

- The `float` and `double` field specialisations (`src/ByteMessageField.hpp:51-59`). They rely on IEEE-754 bit casts inside netconv. netconv is not part of this model; its integer conversions are modelled as big-endian encode and decode.
- `get_ptr` of blobs and messages. It only hands out a raw pointer.
- Deleted copy constructors and destructors. These are C++ object lifetime, not behaviour.
- Overlapping memory. A view's `set`, `get` and `operator=` are specified by the bytes read before the call (`old(...)`). An overlapping `memcpy`, which C leaves undefined, is modelled as a copy of that snapshot.
- Bounds. The C++ views trust their offsets. The model requires every view to lie inside its buffer and the message size to be at least 1, and `Blobs.Blob.Get` requires `out` to hold `length` bytes. A layout whose checksum lies past the end of its message is rejected by these preconditions.
- The default argument `pos = 0` of the bool field constructor, the default `value = 0` of the blob's `set(value)` (`Blobs.Blob.SetAll`), and the default `base = 10` of the Luhn functions. Callers pass all three explicitly.
- `Checksums.Algorithm`: luhn_checksum and luhn_checksum_textbook take a third argument, so they cannot be bound to a `ByteMessageChecksum`. They are modelled as functions in `Luhn` only.
- Integer widths. They are fixed to 64-bit glibc. Other platforms' `uint_fast` widths, and the block limits the C++ selects for them, are not modelled.
- Luhn.LuhnChecksum: the model requires `base != 1`. For base 1 the C++ divides by zero at `src/bm_checksum_luhn.cpp:118`.
- Fletcher.Fletcher16: its result is tied to `Fletcher16AsWritten` for every input but equals the Fletcher-16 checksum only for one block (`Fletcher16OneBlock`).
- OneSum.OneSum32: its result is tied to the function as written, which equals the checksum only in the cases `OptimizedAgreesWhenShort` and `OptimizedAgreesWhenWhole` name.
- OneSum.OneSum32Textbook: its result is tied to the function as written, which equals the checksum only in the case `TextbookAsWrittenAgrees` names.
- The demo message layouts of ByteMessageExamples.h. They are definitions, not logic.

## Findings

| source | as written | input that shows it | evidently intended | confidence | as-written member | corrected member |
|---|---|---|---|---|---|---|
| src/bm_checksum_onesum.cpp:163-165 | the remainder loop adds `*data` at every remainder position without advancing `data`, so the first trailing byte is added repeatedly | bytes [1, 2]: 0xFEFEFFFF instead of 0xFEFDFFFF | add the trailing bytes in turn, as the left-aligned bytes of a zero-padded last word | not executed | OneSum.TextbookAsWrittenDiffers | OneSum.OneSum32TextbookCorrected |
| src/bm_checksum_onesum.cpp:121-138 | `modulus` is computed once from the whole length, and the remainder loop runs after every block, adding the byte that follows each block | 1016 zero bytes then 1: 0xFDFFFFFF instead of 0xFEFFFFFF | add the remainder once, after the last block | not executed | OneSum.OptimizedAsWrittenDiffers | OneSum.OneSum32Corrected |
| src/bm_checksum_twosum.cpp:72 | sum64_checksum masks the 64-bit sum with UINT32_MAX and casts it to uint32_t | the 8 bytes 00 00 00 01 00 00 00 00: 0 instead of 2^32 | return the 64-bit word sum | not executed | TwoSum.Sum64AsWrittenDiffers | TwoSum.Sum64Corrected |
| src/bm_checksum_fletcher.cpp:20-31 | the Fletcher-16 block limit 380368696 ignores the residues (up to 254) carried into each block, so sum2 can exceed 2^64 - 1 | 380368695 zeros, 254, then 380368696 bytes 255: 3326 instead of 3582 | a limit that counts the carried residues, such as 380368695 | not executed | Fletcher.Fletcher16AsWrittenDiffers | Fletcher.Fletcher16Corrected |
| src/bm_checksum_luhn.cpp:133-138 | the factor-1 byte is added unreduced and the doubled byte is reduced by a single subtraction, which is a digit sum only for bytes below the base; the textbook version reduces every term | bytes [25, 0] in base 10: 5 instead of 3 | reduce each term to its digit sum, as at line 64 | not executed | Luhn.LuhnChecksumDiffers | Luhn.LuhnChecksumCorrected |
