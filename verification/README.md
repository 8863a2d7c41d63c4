# Crypto++ cores, modelled and proved in Dafny

This project models the algorithmic cores of the Crypto++ 5.6.5 library kept under `deps/cryptopp`, and proves
that each fast, incremental or in-place form does what its one-line definition says. `dafny verify
dfyconfig.toml` checks all of it.

- **Groups and numbers.** `Group.dfy` has the abstract group; its laws are hypotheses of the theorems, and the
  integers are shown to satisfy them. On it stand the signed sliding windows (`WindowSlider.dfy`), the shared
  doubling loop over many exponents (`Simultaneous.dfy`), the two-base window table (`Cascade.dfy`) and the
  heap-driven multi-exponentiation (`BosCoster.dfy`). `Euclid.dfy` has the extended Euclidean algorithm over
  three rotating slots, `NumberTheory.dfy` what is needed up to Euler's theorem for two primes, and
  `BlumBlumShub.dfy` random access into the Blum-Blum-Shub stream.
- **Text and ASN.1.** `DigitStrings.dfy` has numbers as strings of digits; `BaseNFormat.dfy`, `BaseN.dfy`,
  `BaseNEncoder.dfy`, `BaseNDecoder.dfy` and `BaseNFilters.dfy` the base-2^b encoder, decoder and grouper;
  `AsnFormat.dfy`, `AsnElements.dfy`, `AsnValues.dfy` and `Asn.dfy` the lengths, elements, object identifiers and
  unsigned integers, and the re-encoder of indefinite lengths.
- **Authentication and hashing.** `Blocks.dfy`, `Cmac.dfy`, `Ccm.dfy`, `CcmProtocol.dfy`, `CcmRuns.dfy` and
  `Blake2.dfy`: the buffering, counting and state machines, and runs of any calls on the CCM object, refused ones
  included. The block cipher, the counter mode key stream and the compression function are arbitrary functions.
- **Checksums and a stream cipher.** `Adler32.dfy`, `Crc.dfy` and `Arc4.dfy`.

Objects of the library are classes here, buffers are arrays, and every method is proved against a function of
what came in since the last start. Lemmas then say what those functions mean without naming them: by bits, by the
fields of a format, by numbers, or by the algorithm as it is published. Errors are results, with the exact condition.
Block ciphers, compression and heap algorithms are parameters that only have to keep their contract.

## What the code does that its documentation does not say

- `BlumBlumShub::Seek` (blumshub.cpp:55-62) goes to the right state except where the exponent it computes is a
  multiple of (p-1)(q-1) and the seed shares a factor with p * q. `SeekCanMiss` has an instance. With primes
  congruent to 3 modulo 4, as the generator wants them, it is always right.
- An object identifier (asn.cpp:245-284) comes back as it was encoded exactly when its second arc is below 40 and
  40 times the first plus the second is below 256; other identifiers are changed without an error.
- `BLAKE2` objects made without a key but with a shorter digest size (blake2.cpp:347-354) put the full digest size
  into the parameter block, so that their digest is a prefix of the full digest; section 2.5 of RFC 7693 has
  the digest length itself there. Objects made with a key, or an empty one, and a digest size name that size.
- A `BLAKE2` object with a key that is restarted from a caller's parameter block (blake2.cpp:378-407) puts the
  length of the padded key, a whole block, into it; section 2.5 of RFC 7693 has the length of the key there. The two
  are the same if and only if the key fills a block or is empty: `RestartedKeyLength`.
- In the CCM protocol a call that fails does not put the object into an error state (authenc.cpp:62-176), and two
  things follow. A tag that is asked for when the header is complete and the message is not is refused, but closes
  the header, which is then closed again: one of each last block comes with a tag if and only if that did not happen
  since `Resynchronize` (`OneOfEachExactly`, `HeaderClosedTwice`). And `ProcessData` counts the bytes it refuses, in 64
  bits: where the lengths were given before any data and the message is not too long, a tag is over the blocks of the
  message if and only if the refused bytes come to a multiple of 2^64 (`RightBlocksExactly`, `RefusedBytesMatter`);
  otherwise the first block announces another length. `CcmProtocol.dfy` says both of every sequence of calls, as
  functions of the calls alone, and `AnyRun` that the object does what it says.
- A CCM tag is also given when no lengths were (authenc.cpp:155-169), and with no data it is then over what earlier
  runs left in the CBC block, which `Resynchronize` does not clear (ccm.cpp:28-49): `TruncatedFinal`.

## Model

| member | source | states |
|---|---|---|
| `Groups.Group.TimesAdds` | deps/cryptopp/algebra.cpp:90-95 | in any group, multiples of one element add as the integers do, negative ones included |
| `Groups.Group.TimesNegates` | deps/cryptopp/algebra.cpp:20-30 | the inverse of a multiple is the multiple by the negated integer |
| `Groups.Group.TimesTimes` | deps/cryptopp/algebra.cpp:172-204 | multiples of multiples are multiples by the product |
| `Groups.Group.TimesDistributes` | deps/cryptopp/algebra.cpp:97-170 | in an abelian group, a multiple of a sum is the sum of the multiples |
| `Groups.IntegersAreAbelian` | deps/cryptopp/algebra.cpp:15-35 | the group laws that the theorems below suppose hold of the integers under addition |
| `Groups.IntegerTimes` | deps/cryptopp/algebra.cpp:90-95 | in that group a multiple is a product, so that the theorems compute what they say |
| `WindowSliders.WindowSlider.constructor` | deps/cryptopp/algebra.cpp:206-218 | a new slider holds the whole exponent; the window size is the one given or the default for the bit count |
| `WindowSliders.DefaultWindowSizeIs` | deps/cryptopp/algebra.cpp:212-216 | the longest exponents for each default window size |
| `WindowSliders.WindowSlider.SkipZeros` | deps/cryptopp/algebra.cpp:222-233 | the zeros skipped end at the next one bit, or no bit is left |
| `WindowSliders.WindowSlider.PeelDigit` | deps/cryptopp/algebra.cpp:235-246 | the window is an odd digit, negative only under fast negation, and digit and remainder make up the exponent left, carry included; the position never passes the bit count |
| `WindowSliders.WindowSlider.FindNextWindow` | deps/cryptopp/algebra.cpp:220-247 | the remainder before is digit times its power of two plus the remainder after; windows start at least windowSize apart, one more under fast negation; a slider finishes only on zero |
| `WindowSliders.Recode` | deps/cryptopp/algebra.cpp:206-253 | for every exponent the windows found in turn sum to it, and they are sparse odd digits within the bit count; the search terminates although the exponent can grow |
| `WindowSliders.WindowsAreSparse` | deps/cryptopp/algebra.cpp:220-247 | any two windows of a recoding, not just neighbours, are at least a window apart |
| `Simultaneous.SuffixSumsWeigh` | deps/cryptopp/algebra.cpp:299-313 | running suffix sums weigh the buckets by the odd numbers |
| `Simultaneous.CombineBuckets` | deps/cryptopp/algebra.cpp:299-313 | the backward pass over the buckets returns the sum of (2j+1) times bucket j |
| `Simultaneous.TakeWindow` | deps/cryptopp/algebra.cpp:280-288 | putting the power into the bucket of a digit, added or subtracted, keeps buckets plus remainder equal to the exponent |
| `Simultaneous.TakeWindowsAt` | deps/cryptopp/algebra.cpp:277-290 | one pass at a bit position takes the windows that start there from every slider, and no slider is left behind that position |
| `Simultaneous.TakeAllWindows` | deps/cryptopp/algebra.cpp:271-297 | the shared doubling loop ends with every slider finished, and no window position was skipped |
| `Simultaneous.SimultaneousMultiply` | deps/cryptopp/algebra.cpp:255-314 | in any group, results[i] is exponent i times the base, for every list of nonnegative exponents |
| `Simultaneous.ScalarMultiply` | deps/cryptopp/algebra.cpp:90-95 | the same for one exponent |
| `Cascade.IndexIsInjective` | deps/cryptopp/algebra.cpp:103-130 | no two pairs of coordinates share a table entry |
| `Cascade.WindowBitsAre` | deps/cryptopp/algebra.cpp:103-103 | the longest exponents for each window size |
| `Cascade.FillTable` | deps/cryptopp/algebra.cpp:103-130 | after the fill, every entry with an odd coordinate holds that combination of x and y |
| `Cascade.HalveTogether` | deps/cryptopp/algebra.cpp:142-151 | dividing both digits by two while both are even leaves an odd one, and the doublings moved behind never outnumber those there are |
| `Cascade.TableLookup` | deps/cryptopp/algebra.cpp:152-163 | a lookup with an odd coordinate is in bounds and finds the combination |
| `Cascade.AddDigits` | deps/cryptopp/algebra.cpp:140-167 | the result so far is shifted by the squares and the two digits are added, by way of the table |
| `Cascade.CascadeScalarMultiply` | deps/cryptopp/algebra.cpp:97-170 | in any abelian group, the result is e1 times x plus e2 times y, for all nonnegative e1 and e2, at each of the window sizes |
| `BosCoster.HeapAlgorithmsExist` | deps/cryptopp/algebra.cpp:172-204 | the contract supposed of the heap algorithms can be met |
| `BosCoster.RootIsLargest` | deps/cryptopp/algebra.cpp:184-189 | the root of a heap is its largest element |
| `BosCoster.OrderIsIrrelevant` | deps/cryptopp/algebra.cpp:184-200 | in an abelian group the sum of the terms does not depend on their order |
| `BosCoster.DivideStep` | deps/cryptopp/algebra.cpp:189-196 | moving the quotient of the largest exponent to the base of the next largest keeps the sum of the terms |
| `BosCoster.PopBringsLargest` | deps/cryptopp/algebra.cpp:184-189 | after a pop the two largest exponents are at the end and at the front |
| `BosCoster.DivideLargest` | deps/cryptopp/algebra.cpp:187-200 | one turn of the loop keeps the sum and the heap and makes the total of the exponents smaller |
| `BosCoster.GeneralCascadeMultiplication` | deps/cryptopp/algebra.cpp:172-204 | the result is the sum of all the multiples, for one, two or more terms |
| `Euclid.Gcd` | deps/cryptopp/algebra.cpp:56-68 | the result divides both numbers and every common divisor divides it, for all integers |
| `Euclid.StepKeepsCommonDivisors` | deps/cryptopp/algebra.cpp:61-65 | a division step keeps the common divisors |
| `Euclid.CongruentStep` | deps/cryptopp/algebra.cpp:77-85 | the step keeps v[k] * a congruent to g[k] modulo m |
| `Euclid.BalancedStep` | deps/cryptopp/algebra.cpp:77-85 | the step keeps the signs alternating and the sum of the cross products equal to m |
| `Euclid.MultiplicativeInverse` | deps/cryptopp/algebra.cpp:70-88 | r * a is congruent to 1 modulo m exactly when a and m are coprime, else r is 0; for a nonnegative, r is within m of 0 |
| `NumberTheory.BinomialTheorem` | deps/cryptopp/blumshub.cpp:55-62 | the binomial theorem for x + 1, on the way to Fermat |
| `NumberTheory.Fermat` | deps/cryptopp/blumshub.cpp:55-62 | the p-th power of x is congruent to x modulo a prime p |
| `NumberTheory.EulerReduction` | deps/cryptopp/blumshub.cpp:55-62 | modulo p * q, an exponent may be reduced modulo (p-1)(q-1) unless it reduces to 0 and the base shares a factor with p * q |
| `BlumBlumShub.PublicBlumBlumShub.constructor` | deps/cryptopp/blumshub.cpp:9-15 | a new generator stands at bit 0 of the stream of its seed |
| `BlumBlumShub.MaxBitsIs` | deps/cryptopp/blumshub.cpp:9-15 | the number of bits put out of a state is the largest one whose power of two is not above the bit count of n |
| `BlumBlumShub.StateInStream` | deps/cryptopp/blumshub.cpp:17-26 | the bits put out of each state, the first one on top, are its low maxBits bits as a number |
| `BlumBlumShub.PublicBlumBlumShub.GenerateBit` | deps/cryptopp/blumshub.cpp:17-26 | the bit returned is the one of the stream at the position, which moves on by one, across squarings |
| `BlumBlumShub.PublicBlumBlumShub.GenerateByte` | deps/cryptopp/blumshub.cpp:28-34 | eight bits of the stream: the bit of weight 128 is the next one, the bit of weight 1 the last |
| `BlumBlumShub.PublicBlumBlumShub.GenerateBlock` | deps/cryptopp/blumshub.cpp:36-40 | bit i of byte k of the output, from the top, is the bit of the stream 8k + i on |
| `BlumBlumShub.PublicBlumBlumShub.ProcessData` | deps/cryptopp/blumshub.cpp:42-46 | bit i of byte k is that of the input, changed where the bit of the stream 8k + i on is set |
| `BlumBlumShub.MaskedTwice` | deps/cryptopp/blumshub.cpp:42-46 | masking twice from one position is the identity |
| `BlumBlumShub.StateIsPower` | deps/cryptopp/blumshub.cpp:55-62 | the state after k squarings is a power of the first state |
| `BlumBlumShub.SeekLandsOnState` | deps/cryptopp/blumshub.cpp:55-62 | the power with the reduced exponent is the right state if and only if the reduced exponent is not 0 or the seed is coprime to p * q |
| `BlumBlumShub.BlumBlumShub.constructor` | deps/cryptopp/blumshub.cpp:48-53 | the generator for two distinct primes starts at bit 0 |
| `BlumBlumShub.BlumBlumShub.Seek` | deps/cryptopp/blumshub.cpp:55-62 | after Seek the generator is in the state of the stream at that byte, bits left included, if and only if SeekIsExact; what follows is then the stream with its first bytes dropped |
| `BlumBlumShub.SeekAndGenerate` | deps/cryptopp/blumshub.cpp:36-62 | where Seek is exact, which includes every seed coprime to p * q, bit i of byte k generated after it is bit 8(index + k) + i of the stream |
| `BlumBlumShub.BlumPrimesSeekExactly` | deps/cryptopp/blumshub.cpp:48-62 | for primes congruent to 3 modulo 4, the ones the generator is meant for, Seek is exact for every seed and index |
| `BlumBlumShub.SeekCanMiss` | deps/cryptopp/blumshub.cpp:55-62 | a seed and primes for which Seek goes to a state that gives a different bit |
| `Blocks.BlockCipher.ChainAppends` | deps/cryptopp/cryptlib.cpp:178-227 | chaining over two strings in turn is chaining over both at once |
| `Blocks.AdvancedProcessBlocks` | deps/cryptopp/cryptlib.cpp:178-227 | the loop chains exactly the full blocks of the data into the block and returns how many bytes are left |
| `Blocks.XorTwice` | deps/cryptopp/misc.cpp:28-60 | a mask xored twice is gone, and a string xored with itself is zeros |
| `Cmac.ShiftLeftDoubles` | deps/cryptopp/cmac.cpp:13-20 | shifting a string of bytes left doubles the big-endian number, the bit shifted out included |
| `Cmac.DoubledIs` | deps/cryptopp/cmac.cpp:11-41 | doubling gives twice the number, less the bit that does not fit in, xored with 0x1b, 0x87 or 0x423 if there was one |
| `Cmac.MulU` | deps/cryptopp/cmac.cpp:11-41 | the bytes are doubled in place and reduced by the constant of the block size where a bit was shifted out; an error exactly where that size has no constant, after the shift; of an odd number of bytes the first stays as it was |
| `Cmac.DeriveKeys` | deps/cryptopp/cmac.cpp:43-56 | the two subkeys of section 6.1 of NIST SP 800-38B |
| `Cmac.LastLengthIsUnique` | deps/cryptopp/cmac.cpp:58-101 | the last block of a message that is not empty has between one byte and a full block |
| `Cmac.PaddedValue` | deps/cryptopp/cmac.cpp:108-115 | the padding is a one bit behind those of the last block, and zeros |
| `Cmac.TagOfParts` | deps/cryptopp/cmac.cpp:103-122 | the tag in terms of the chain over all blocks but the last, and the last block masked by completeness |
| `Cmac.TagIs` | deps/cryptopp/cmac.cpp:43-122 | the steps of section 6.2 of NIST SP 800-38B written out: which subkey masks the last block, and what is in it |
| `Cmac.CmacBase.constructor` | deps/cryptopp/cmac.cpp:43-56 | a keyed object has received nothing |
| `Cmac.CmacBase.Update` | deps/cryptopp/cmac.cpp:58-101 | what was received grows by the input, and the last block is never processed early, for any piece |
| `Cmac.CmacBase.TruncatedFinal` | deps/cryptopp/cmac.cpp:103-122 | the tag of section 6.2 of NIST SP 800-38B over all that was received, cut to size, or an error; then a fresh start |
| `CcmFormat.StreamedTwice` | deps/cryptopp/ccm.cpp:28-49 | the counter mode stream applied twice is the identity |
| `CcmFormat.StreamedAppends` | deps/cryptopp/ccm.cpp:28-49 | streaming piece by piece is streaming the whole |
| `CcmFormat.FlagsAre` | deps/cryptopp/ccm.cpp:62-62 | the fields of the flags: bit 7 is clear, bit 6 says that there is a header, bits 5 to 3 are (M - 2) / 2, and bits 2 to 0 are L - 1 |
| `CcmFormat.FirstBlockIs` | deps/cryptopp/ccm.cpp:59-65 | so are those of the first block, with the nonce behind the flags, and the length of the message as a number behind that |
| `CcmFormat.CounterBlockIs` | deps/cryptopp/ccm.cpp:28-49 | the counter block: 14 less the length of the nonce, the nonce, and zeros |
| `CcmFormat.HeaderPrefixIs` | deps/cryptopp/ccm.cpp:67-90 | the length of a header as a number in nothing, two, six or ten bytes, the longer forms behind their marks |
| `CcmFormat.LongestIs` | deps/cryptopp/ccm.h:52-53 | a message is not too long if and only if its length fits in the bytes left for it |
| `CcmFormat.BlocksAreFormat` | deps/cryptopp/ccm.cpp:51-130 | all blocks: the first one, the header behind its length, and the message, each filled up with as few zeros as make whole blocks |
| `CcmFormat.FormatIsUnique` | deps/cryptopp/ccm.cpp:51-130 | these fields determine the blocks |
| `CcmFormat.FormatIsInjective` | deps/cryptopp/ccm.cpp:51-130 | different nonces, headers, messages or tag sizes never give the same blocks |
| `CcmFormat.TagsAre` | deps/cryptopp/ccm.cpp:132-136 | the tags are exactly the chaining values over blocks of that format under the first bytes of the keystream, for every nonce, header and message within the limits |
| `CcmFormat.CipherTextAt` | deps/cryptopp/ccm.cpp:28-49 | byte i of the cipher text is that of the message xored with byte 16 + i of the keystream, so that no byte of it is used for the tag too |
| `CcmFormat.HeaderFinished` | deps/cryptopp/ccm.cpp:51-114 | what the header phase passes on is the first block and the header of section 2.2 of RFC 3610, padded |
| `CcmFormat.MessageFinished` | deps/cryptopp/ccm.cpp:116-130 | what the message phase passes on are all the blocks of section 2.2 of RFC 3610 |
| `CcmFormat.AnnouncementShows` | deps/cryptopp/ccm.cpp:59-65 | blocks that announce a length are those of the message if and only if it is the length of the message |
| `CcmFormat.WrappedIs` | deps/cryptopp/authenc.cpp:106-106 | the 64-bit count of a number of bytes is its remainder modulo 2^64 |
| `CcmFormat.RefusedBytesShow` | deps/cryptopp/authenc.cpp:106-108 | where the length announced is that of the message and some refused bytes, in 64 bits, the blocks are those of the message if and only if the refused bytes come to a multiple of 2^64 |
| `Ccm.Authenticator.AuthenticateBlocks` | deps/cryptopp/ccm.cpp:93-98 | full blocks are chained into the tag block, and the number of bytes left over is returned |
| `Ccm.Authenticator.AuthenticateData` | deps/cryptopp/authenc.cpp:11-46 | blocks passed on plus buffer grow by exactly the input, for any piece |
| `Ccm.Authenticator.FinishPhase` | deps/cryptopp/ccm.cpp:100-130 | what is left in the buffer is passed on with zeros after it, and nothing if nothing is left |
| `Ccm.Authenticator.StartFirstBlock` | deps/cryptopp/ccm.cpp:59-65 | the first block: flags, nonce, and the message length in the bytes left for it |
| `Ccm.Authenticator.StartHeader` | deps/cryptopp/ccm.cpp:67-90 | the length of the header in its two, six or ten bytes |
| `Ccm.LongestHeaderIs` | deps/cryptopp/ccm.h:50-51 | a header is not too long if and only if its length fits in 64 bits |
| `Ccm.Ccm.Resynchronize` | deps/cryptopp/authenc.cpp:62-73 | a nonce of 7 to 13 bytes starts a fresh run; any other is an error |
| `Ccm.Ccm.Resync` | deps/cryptopp/ccm.cpp:28-49 | the counter block of the nonce, field by field, with nothing declared yet |
| `Ccm.Ccm.SpecifyDataLengths` | deps/cryptopp/cryptlib.cpp:252-266 | lengths are taken in the header phase only, and only if the message length fits |
| `Ccm.Ccm.UncheckedSpecifyDataLengths` | deps/cryptopp/ccm.cpp:51-91 | an error in every state but the header phase; otherwise the declared lengths, whatever they are, are stored; what is authenticated where they come in time and fit are the fields of the first block and of the length of the header |
| `Ccm.Ccm.AuthenticateLastHeaderBlock` | deps/cryptopp/ccm.cpp:100-114 | an error exactly when the header is not as long as declared; otherwise the header is padded |
| `Ccm.Ccm.AuthenticateLastConfidentialBlock` | deps/cryptopp/ccm.cpp:116-130 | the same for the message |
| `Ccm.Ccm.AuthenticateLastFooterBlock` | deps/cryptopp/ccm.cpp:132-136 | in every run, the value given is the tag of RFC 3610, section 2.3, of all the blocks that were authenticated, whatever they are |
| `Ccm.Ccm.EnterMessage` | deps/cryptopp/authenc.cpp:114-119 | the first data closes the header, if it is as long as declared; the blocks stay as they are where the buffer is empty, and so it is where the header was closed before and the lengths came before any data |
| `Ccm.Ccm.Update` | deps/cryptopp/authenc.cpp:75-102 | in each state, which data is accepted as what, which last blocks are authenticated, and exactly when there is an error; on an error nothing is authenticated |
| `Ccm.Ccm.ProcessData` | deps/cryptopp/authenc.cpp:104-134 | in each state, the output is the stream over the input, the plain text is authenticated in both directions, and exactly when there is an error; on an error nothing is authenticated, but the bytes are counted, in 64 bits |
| `Ccm.Ccm.TruncatedFinal` | deps/cryptopp/authenc.cpp:136-176 | a tag exactly in the allowed states with the declared lengths, of the blocks that were authenticated; it comes with one of each last block, in order, if and only if no call of the run asked for a tag too early; where the lengths came before data, those are the blocks of the message if and only if the refused bytes come to a multiple of 2^64; where no lengths came, there was no header and, if there was no message, they are what was in the CBC block before the run; no more is accepted until the next Resynchronize; on an error, exactly which last block was authenticated |
| `Ccm.OneOfEach` | deps/cryptopp/authenc.cpp:136-176 | the last blocks that come with a tag are one of each if and only if no tag was asked for too early |
| `Ccm.Ccm.TruncatedVerify` | deps/cryptopp/cryptlib.cpp:408-414 | in every run, a digest is accepted exactly when it is the tag of the blocks that were authenticated, which are those of the message under the same conditions; an oversized digest changes nothing |
| `Ccm.Ccm.EncryptAndAuthenticate` | deps/cryptopp/cryptlib.cpp:268-275 | the cipher text and the tag of RFC 3610, written out as the chaining value over blocks with the fields of its section 2.2, for every nonce, header and message within the limits, and otherwise an error |
| `Ccm.Ccm.DecryptAndVerify` | deps/cryptopp/cryptlib.cpp:277-284 | the message, and acceptance exactly of its tag, written out in the same way |
| `Ccm.BlockIsTag` | deps/cryptopp/ccm.cpp:132-136 | the streamed chaining value over all the blocks is the tag |
| `Ccm.HeaderToMessage` | deps/cryptopp/authenc.cpp:104-128 | finishing the header moves from the blocks expected in one phase to those in the next |
| `Ccm.MessageToFooter` | deps/cryptopp/authenc.cpp:84-94 | the same for the message |
| `Ccm.RunInParts` | deps/cryptopp/authenc.cpp:62-176 | header and message in any pieces give the cipher text and the tag of the whole |
| `Ccm.VerifyInParts` | deps/cryptopp/authenc.cpp:62-176 | the same for decryption, and the verdict on a tag |
| `Ccm.RoundTrip` | deps/cryptopp/cryptlib.cpp:268-284 | what was encrypted in pieces, decrypted in any other pieces, is the message, and its tag is accepted |
| `CcmProtocol.OneOfEachExactly` | deps/cryptopp/authenc.cpp:136-176 | for every sequence of calls, refused ones included, after which there is a tag: it comes with one of each last block, in order, if and only if none of the calls since the last Resynchronize asked for one with the header complete, no footer and the message count wrong |
| `CcmProtocol.RightBlocksExactly` | deps/cryptopp/authenc.cpp:104-134 | wherever in any sequence of calls a tag is given, the blocks announced are those of the message, unless that is too long for its length field, if and only if the bytes refused since the last Resynchronize come to a multiple of 2^64 |
| `CcmProtocol.TagWithoutLengths` | deps/cryptopp/authenc.cpp:136-176 | where no lengths were given, a tag is given for a message count of 0 only, and for no header |
| `CcmProtocol.NothingAfterTag` | deps/cryptopp/authenc.cpp:62-176 | after a tag, whatever the calls are, nothing is accepted and nothing changes but the count of refused bytes, until the next Resynchronize; an Update with no bytes is ignored |
| `CcmProtocol.PartsInOrder` | deps/cryptopp/authenc.cpp:75-134 | whatever the calls are, what is accepted since the last Resynchronize is header, then message, then footer |
| `CcmProtocol.HeaderClosedTwice` | deps/cryptopp/authenc.cpp:136-176 | a run in which a tag is asked for before the message, and the header is closed twice |
| `CcmProtocol.RefusedBytesMatter` | deps/cryptopp/authenc.cpp:104-134 | runs in which five bytes, or 2^64 bytes, are refused before a message of five: with ten bytes announced, or five, each gets a tag, which is over the blocks of the message in the second only |
| `CcmRuns.Perform` | deps/cryptopp/authenc.cpp:62-176 | each call on the object, refused or not, leads to the state and gives back what the protocol says of the call |
| `CcmRuns.AnyRun` | deps/cryptopp/authenc.cpp:62-176 | for every sequence of calls on a new object, its state, the lengths given, the bytes taken and refused and the last blocks authenticated are those that the calls lead to, and every error, output, tag and verdict is the one the calls before it lead to |
| `CcmRuns.OutcomeOfRun` | deps/cryptopp/authenc.cpp:62-176 | each of these outcomes: the error, the stream over the input, and, where the lengths came before any data, the tag of the blocks that announce them |
| `CcmRuns.RunTagIs` | deps/cryptopp/authenc.cpp:136-176 | such a tag is that of RFC 3610 for nonce, header and message where the refused bytes come to a multiple of 2^64 |
| `BaseNFormat.MessageDigitsAre` | deps/cryptopp/basecode.cpp:48-113 | digits with fewer fill bits than a digit that make the value of the message are its digits: there is one way to encode |
| `BaseNFormat.DigitBytesAre` | deps/cryptopp/basecode.cpp:133-176 | the bytes a decoder can make out of digits are determined by their value |
| `BaseNFormat.DigitsRoundTrip` | deps/cryptopp/basecode.cpp:22-176 | the full bytes in the digits of a message are the message, at every width |
| `BaseNFormat.MessageBits` | deps/cryptopp/basecode.cpp:48-113 | bit by bit: the digits of a message hold its bits in order, the first one on top, and zeros after them |
| `BaseNFormat.DecodedBits` | deps/cryptopp/basecode.cpp:133-176 | and decoded bytes hold the bits of the digits in order, as many as make whole bytes |
| `BaseNText.ValuesOfCharacters` | deps/cryptopp/basecode.cpp:178-197 | looking the characters up gives the digits back |
| `BaseNText.GroupedHasSameValues` | deps/cryptopp/basecode.cpp:214-243 | separators that have no value do not change what is decoded |
| `BaseNText.EncodedIsText` | deps/cryptopp/basecode.cpp:48-113 | the text of every message, with any padding: as many characters as its bits need, each the one for its bits, and then the padding character up to a whole block and nothing else, or nothing where there is none |
| `BaseNText.GroupedAt` | deps/cryptopp/basecode.cpp:219-232 | where each character and each separator of grouped text is |
| `BaseNText.GroupedLength` | deps/cryptopp/basecode.cpp:219-232 | and that there is nothing else: one separator between two groups, none at the end |
| `BaseNText.RoundTrip` | deps/cryptopp/basecode.cpp:22-243 | the encoded, padded, grouped and terminated text decodes to the message, for every width, alphabet and message |
| `BaseNEncoder.Encoder.constructor` | deps/cryptopp/basecode.cpp:22-46 | the block size is the smallest number of characters whose bits are whole bytes; the buffer is that long |
| `BaseNEncoder.BlockSizeIs` | deps/cryptopp/basecode.cpp:40-43 | that is 4 characters of six bits, 8 of five, 2 of four, and so for every width |
| `BaseNEncoder.Encoder.AbsorbByte` | deps/cryptopp/basecode.cpp:56-79 | the bits of a byte go to the end of the bits in the block, across characters, within the buffer |
| `BaseNEncoder.Encoder.PutByte` | deps/cryptopp/basecode.cpp:51-94 | one byte more of the message is accounted for, and a full block goes out as characters |
| `BaseNEncoder.Encoder.Finish` | deps/cryptopp/basecode.cpp:95-111 | the output is the encoding of all that came in; it is the text described by EncodedIsText, the last character filled with zeros and the last block padded |
| `BaseNEncoder.Encoder.Put` | deps/cryptopp/basecode.cpp:48-113 | the same for any piece of input, with or without the end of the message |
| `BaseNDecoder.Decoder.constructor` | deps/cryptopp/basecode.cpp:115-131 | the decoder of a lookup table, with a buffer of whole blocks |
| `BaseNDecoder.Decoder.PutBits` | deps/cryptopp/basecode.cpp:146-162 | the bits of a value go to the end of the bits in the block, across bytes, within the buffer |
| `BaseNDecoder.Decoder.PutChar` | deps/cryptopp/basecode.cpp:136-169 | a character without a value is skipped, any other is accounted for |
| `BaseNDecoder.Decoder.Finish` | deps/cryptopp/basecode.cpp:170-174 | the output is the decoding of all that came in, bits short of a byte dropped |
| `BaseNDecoder.Decoder.Put` | deps/cryptopp/basecode.cpp:133-176 | the same for any piece of input, with or without the end of the message |
| `BaseNFilters.InitializeDecodingLookupArray` | deps/cryptopp/basecode.cpp:178-197 | every character has the value of the last alphabet character it matches, or none |
| `BaseNFilters.MatchesAre` | deps/cryptopp/basecode.cpp:183-196 | where cases do not matter, a letter is read as itself and as its other case, and any other character as itself |
| `BaseNFilters.LookupInverts` | deps/cryptopp/basecode.cpp:178-197 | for an alphabet that is unambiguous the table undoes it, however cases are mixed, and has no value for other characters |
| `BaseNFilters.Grouper.PutGroup` | deps/cryptopp/basecode.cpp:219-232 | one turn of the loop puts out part of a group, after a separator where the last group is full |
| `BaseNFilters.Grouper.Put` | deps/cryptopp/basecode.cpp:214-243 | the output is the text in groups with separators between them, and the terminator at the end |
| `BaseNFilters.EncodeParts` | deps/cryptopp/basecode.cpp:48-113 | a message in any pieces encodes as the whole |
| `BaseNFilters.GroupParts` | deps/cryptopp/basecode.cpp:214-243 | a text in any pieces is grouped as the whole |
| `BaseNFilters.DecodeParts` | deps/cryptopp/basecode.cpp:133-176 | a text in any pieces decodes as the whole |
| `BaseNFilters.RoundTripInParts` | deps/cryptopp/basecode.cpp:22-243 | encoder, grouper and decoder one after the other, cut into pieces anew before each, give the message back |
| `AsnFormat.LengthRoundTrip` | deps/cryptopp/asn.cpp:17-74 | every length below 2^64 is read back from its DER octets |
| `AsnFormat.LengthIsMinimal` | deps/cryptopp/asn.cpp:17-36 | no other octets that are read as a length are fewer |
| `AsnFormat.RefusedExactly` | deps/cryptopp/asn.cpp:38-74 | complete long-form octets are refused exactly when their value needs more than 64 bits, and nothing wraps |
| `Asn.DERLengthEncode` | deps/cryptopp/asn.cpp:17-36 | the octets put out are the DER length octets, and their number is returned |
| `Asn.BERLengthDecode` | deps/cryptopp/asn.cpp:38-74 | the queue is read as a definite or indefinite length or refused, in each case as the format says |
| `AsnElements.ParsedIsEncoded` | deps/cryptopp/asn.cpp:202-217 | whatever parses as an element is the encoding of that element followed by what is left |
| `AsnElements.EncodedParses` | deps/cryptopp/asn.cpp:202-217 | every well-formed tree of elements parses back from its encoding |
| `AsnElements.OpenParsesExactly` | deps/cryptopp/asn.cpp:393-404 | any well-formed elements between 0x80 and two zeros are the contents of an element if and only if bit 5 of its tag is set |
| `AsnElements.ReencodedFits` | deps/cryptopp/asn.cpp:513-520 | re-encoding makes an element no more than three times as long |
| `AsnElements.ReencodedParses` | deps/cryptopp/asn.cpp:202-217 | the re-encoding parses as the same tags and contents with definite lengths no longer than any other, definite contents verbatim, and re-encoding it again changes nothing |
| `AsnElements.ReencodedAllParse` | deps/cryptopp/asn.cpp:202-217 | the re-encoded contents of an element parse as the re-encoded children, in order |
| `AsnElements.ReencodedEncodesTree` | deps/cryptopp/asn.cpp:202-217 | the re-encoding is the whole tree with definite, minimal lengths: at every level the same tag, definite contents verbatim, and the contents of indefinite length cut into the re-encodings of the elements inside, in order |
| `Asn.BERGeneralDecoder.Init` | deps/cryptopp/asn.cpp:393-404 | the tag must match; the length is definite, or indefinite, which is accepted if and only if bit 5 of the tag is set |
| `Asn.BERGeneralDecoder.TransferTo2` | deps/cryptopp/asn.cpp:461-486 | so many octets move over as were asked for, as the queue has, and, with a definite length, as are left of it; that length goes down by as many |
| `Asn.BERGeneralDecoder.MessageEnd` | deps/cryptopp/asn.cpp:445-459 | an error if anything is left; the two zero octets of an indefinite length are consumed |
| `Asn.DERReencode` | deps/cryptopp/asn.cpp:202-217 | exactly one element is consumed and its re-encoding put out, or it is an error exactly when none parses; terminates on every input |
| `Asn.ReencodeContents` | deps/cryptopp/asn.cpp:210-215 | the children of an indefinite element are re-encoded up to the two zero octets |
| `Asn.ReencodeElement` | deps/cryptopp/asn.cpp:202-217 | for every well-formed tree the method consumes its encoding and emits the encoding of the same tree with definite lengths |
| `Asn.ReencodeOpen` | deps/cryptopp/asn.cpp:202-217 | for every tag and all well-formed children, an element of indefinite length is re-encoded, as the whole tree with definite lengths, if and only if bit 5 of the tag is set, and is an error otherwise |
| `AsnValues.ArcRoundTrip` | deps/cryptopp/asn.cpp:219-243 | every 32-bit arc is read back from its octets |
| `AsnValues.ArcRefusedExactly` | deps/cryptopp/asn.cpp:226-243 | a complete arc is refused exactly when its value needs more than 32 bits, leading zeros or not, and nothing wraps |
| `AsnValues.ArcCutOff` | deps/cryptopp/asn.cpp:226-243 | octets none of which ends an arc are refused |
| `AsnValues.ArcOrCut` | deps/cryptopp/asn.cpp:226-243 | there is nothing else: any octets are a complete arc and what follows it, or none of them ends an arc |
| `Asn.EncodeValue` | deps/cryptopp/asn.cpp:219-224 | the octets put out are seven bits each, most significant first, all but the last marked |
| `Asn.DecodeValue` | deps/cryptopp/asn.cpp:226-243 | the value and the number of octets read, or an error, exactly as ReadArc says; the three lemmas on ReadArc above say when |
| `AsnValues.OidReadsBack` | deps/cryptopp/asn.cpp:245-284 | what any OID with at least two arcs is read back as |
| `AsnValues.OidRoundTripsExactly` | deps/cryptopp/asn.cpp:245-284 | an OID is read back as it was if and only if its second arc is below 40 and the first octet fits |
| `AsnValues.OidReadExactly` | deps/cryptopp/asn.cpp:257-284 | an element, whatever the form of its length, is read as an identifier if and only if its tag is 6 and its octets are one for the first two arcs and then arcs |
| `AsnValues.OidReadOnly` | deps/cryptopp/asn.cpp:257-284 | and nothing else is read as one |
| `Asn.OID.DEREncode` | deps/cryptopp/asn.cpp:245-255 | the tag, the length and the octets of the arcs |
| `Asn.OID.BERDecode` | deps/cryptopp/asn.cpp:257-284 | the arcs read and the octets left, or an error exactly when they are malformed |
| `AsnValues.UnsignedContentValue` | deps/cryptopp/asn.h:441-466 | the content octets have the value, and a clear sign bit |
| `AsnValues.UnsignedContentIsShortest` | deps/cryptopp/asn.h:450-462 | no other octets of that value with a clear sign bit are fewer |
| `AsnValues.UnsignedRoundTrip` | deps/cryptopp/asn.h:441-510 | every unsigned value that fits the type and the bounds is read back |
| `AsnValues.BooleanReadsBack` | deps/cryptopp/asn.h:444-449 | tag 1 puts out the three octets of a BOOLEAN, which reads back as 0 or 255 |
| `AsnValues.UnsignedReadExactly` | deps/cryptopp/asn.h:477-510 | an element, whatever the form of its length, is read if and only if it has the tag asked for and a value that fits the type and the bounds |
| `AsnValues.UnsignedReadOnly` | deps/cryptopp/asn.h:477-510 | and nothing else is read |
| `Asn.DEREncodeUnsigned` | deps/cryptopp/asn.h:441-466 | the tag, the length and the shortest octets of the value, found in the buffer |
| `Asn.BERDecodeUnsigned` | deps/cryptopp/asn.h:477-510 | the value, leading zeros stripped, or an error exactly when it does not fit the type or the bounds |
| `Blake2.CounterCarries` | deps/cryptopp/blake2.cpp:468-474 | adding to the low word, and one to the high word where that is less than what was added, is adding to the two-word count |
| `Blake2.FinishedSkips` | deps/cryptopp/blake2.cpp:409-441 | blocks already compressed count for no more than the state and the count they left |
| `Blake2.CallsMade` | deps/cryptopp/blake2.cpp:409-474 | in the specification, the compression function is called once for every block in order, with the count of the octets up to its end, the last block padded with zeros, and the final flag set for the last call alone |
| `Blake2.CallsInParts` | deps/cryptopp/blake2.cpp:409-474 | so is it by the object, for key and message in any pieces |
| `Blake2.KeyedCallsInParts` | deps/cryptopp/blake2.cpp:279-474 | under a key the first call takes its octets and zeros, call i + 1 takes block i of the message, and the count includes the block of the key; without one, call i takes block i |
| `Blake2.Hash.Plain` | deps/cryptopp/blake2.cpp:347-354 | started without a key; the parameter block names this object's digest size if and only if that is the full size |
| `Blake2.Hash.Keyed` | deps/cryptopp/blake2.cpp:356-369 | started with the octets of the key and zeros behind them as its first block, and a parameter block that names the digest size asked for and the length of the key, with one leaf, one level and zeros for the tree, salt and personalization with zeros behind them |
| `Blake2.Hash.UncheckedSetKey` | deps/cryptopp/blake2.cpp:279-338 | the key with zeros behind it, and the parameter block of the next restart, field by field; a salt or personalization that is too long is an error, and exactly what it leaves behind |
| `Blake2.Hash.Restart` | deps/cryptopp/blake2.cpp:371-407 | the initial state, zero counters and flags, and the key block in the buffer |
| `Blake2.Hash.RestartFrom` | deps/cryptopp/blake2.cpp:378-407 | from a caller's parameter block and counter: all of the block is taken over but the digest size, which is the object's, and the length of the key, which is that of the padded key; the count starts where it is told, and the key comes first |
| `Blake2.RestartedKeyLength` | deps/cryptopp/blake2.cpp:378-407 | that length is the length of the key itself if and only if the key fills a block or is empty |
| `Blake2.Hash.Count` | deps/cryptopp/blake2.cpp:468-474 | the two words go on holding the count, wrapping as the machine words do |
| `Blake2.Hash.Update` | deps/cryptopp/blake2.cpp:409-441 | what was absorbed grows by exactly the input, for any piece; the last block stays in the buffer |
| `Blake2.Hash.TruncatedFinal` | deps/cryptopp/blake2.cpp:443-466 | the digest of all that was absorbed since the restart, cut to size, and the state of a fresh start; a size above the digest size is an error |
| `Blake2.DigestInParts` | deps/cryptopp/blake2.cpp:371-474 | the digest depends on the key block and the whole message only, not on the pieces, and the object is then ready for another message |
| `Crc.BitStepsAreLinear` | deps/cryptopp/crc.cpp:132-181 | dividing bit by bit is linear over exclusive or |
| `Crc.DivideAtOnce` | deps/cryptopp/crc.cpp:132-181 | feeding bits one at a time is combining them with the state first |
| `Crc.DigestIs` | deps/cryptopp/crc.cpp:172-181 | the digest, read from its last octet to its first, is 2^32 - 1 less the remainder |
| `Crc.DigestChecks` | deps/cryptopp/crc.cpp:132-181 | a message with its digest behind it leaves the same remainder, whatever the message |
| `Crc.DigestOfOctet` | deps/cryptopp/crc.cpp:132-181 | the digest of the one octet 0x7f, for every polynomial |
| `Crc.TableIsDetermined` | deps/cryptopp/crc.cpp:15-125 | 256 words are the table of a polynomial if and only if entry 0 is 0, entry 128 is the polynomial, entry j is one division step from entry 2j, and entry 128 + k is entry k combined with the polynomial |
| `Crc.TableExists` | deps/cryptopp/crc.cpp:15-125 | the property that the theorems suppose of a table can be met, for every polynomial and in either byte order |
| `Crc.EntriesOfCrc32` | deps/cryptopp/crc.cpp:17-70 | entries 128, 64, 32, 16, 8 and 4 of the table of 0xEDB88320 |
| `Crc.EntriesOfCrc32C` | deps/cryptopp/crc.cpp:185-238 | entries 128, 64, 32 and 16 of the table of 0x82F63B78 |
| `Crc.MachineOperations` | deps/cryptopp/crc.h:14-38 | the index and shift macros do on the stored state what they mean on the number, in either byte order |
| `Crc.MachineXor` | deps/cryptopp/crc.h:14-38 | exclusive or commutes with the byte order |
| `Crc.ByteStep` | deps/cryptopp/crc.cpp:152-153 | one table lookup is eight division steps with the octet |
| `Crc.WordStep` | deps/cryptopp/crc.cpp:155-161 | after a word is combined in, one lookup is the step of its first octet and leaves the others combined |
| `Crc.Checksum.UpdateByte` | deps/cryptopp/crc.cpp:152-153 | the byte-wise step on the stored state |
| `Crc.Checksum.UpdateWord` | deps/cryptopp/crc.cpp:155-164 | four lookups on a word are four byte-wise steps |
| `Crc.Checksum.Update` | deps/cryptopp/crc.cpp:132-170 | for every message, piece and pointer alignment, the state stays that of bit-by-bit division by the polynomial; CRC32 and CRC32C (crc.cpp:300-352) differ in the polynomial only |
| `Crc.Checksum.TruncatedFinal` | deps/cryptopp/crc.cpp:172-181 | the inverted remainder, least significant octet first whatever the byte order, cut to size, and a fresh start; the buffer behind them stays as it was |
| `Adler32.LeftIsRemainder` | deps/cryptopp/adler32.cpp:8-54 | sums reduced by multiples of 65521 are the remainders of the plain sums |
| `Adler32.SumsAre` | deps/cryptopp/adler32.cpp:8-54 | the sums in closed form: one more than the sum of the octets, and that of the octets counted as often as there are octets from them on, and one for each |
| `Adler32.DigestValue` | deps/cryptopp/adler32.cpp:56-78 | the digest as a number: the second sum modulo 65521 times 65536, and the first |
| `Adler32.AddOdd` | deps/cryptopp/adler32.cpp:15-27 | the octets up to a multiple of eight need one subtraction for the first sum |
| `Adler32.AddEight` | deps/cryptopp/adler32.cpp:31-38 | eight octets raise the sums by at most 2040 and 533340 |
| `Adler32.AddGroup` | deps/cryptopp/adler32.cpp:29-47 | one subtraction reduces the first sum; the second never exceeds 65520 + 4096 * 533340, below 2^32, before it is reduced |
| `Adler32.Checksum.Update` | deps/cryptopp/adler32.cpp:8-54 | both sums stay the plain sums modulo 65521, for any message in any pieces |
| `Adler32.Checksum.TruncatedFinal` | deps/cryptopp/adler32.cpp:56-78 | the digest of section 2.2 of RFC 1950 over all that came in, cut to size, and a fresh start; the buffer behind it stays as it was |
| `KeyStreams.AfterAdds` | deps/cryptopp/arc4.cpp:102-119 | so many steps and so many more are both together |
| `KeyStreams.StreamSplits` | deps/cryptopp/arc4.cpp:67-71 | the key stream is the same however it is taken |
| `KeyStreams.CipheredSplits` | deps/cryptopp/arc4.cpp:73-100 | data in two pieces is ciphered as the whole |
| `KeyStreams.CipheredTwice` | deps/cryptopp/arc4.cpp:73-100 | ciphering twice from one state is the identity |
| `KeyStreams.CipheredBits` | deps/cryptopp/arc4.cpp:73-100 | those bits of the data are changed that are set in the key stream |
| `Arc4.EveryOctetOccurs` | deps/cryptopp/arc4.cpp:35-37 | a table without repetitions holds every octet |
| `Arc4.StepBack` | deps/cryptopp/arc4.cpp:55-65 | the step can be undone |
| `Arc4.StepAgain` | deps/cryptopp/arc4.cpp:55-65 | every state is reached by a step |
| `Arc4.NeverMeet` | deps/cryptopp/arc4.cpp:55-65 | different states stay different for ever |
| `Arc4.AfterPermutes` | deps/cryptopp/arc4.cpp:55-65 | the table is a permutation of the octets after every step |
| `Arc4.ScheduledPermutes` | deps/cryptopp/arc4.cpp:39-49 | so it is after every round of the key setup |
| `Arc4.StreamIsPublished` | deps/cryptopp/arc4.cpp:28-65 | the key stream of the object, which keeps its first index stepped already, is that of the cipher as published, key setup included |
| `Arc4.MakeByte` | deps/cryptopp/arc4.cpp:55-65 | the step and its octet on a table in place |
| `Arc4.Base.UncheckedSetKey` | deps/cryptopp/arc4.cpp:28-53 | the state of the key, so many octets discarded, or an error exactly for a key of a wrong length; the table is a permutation |
| `Arc4.Base.MixKey` | deps/cryptopp/arc4.cpp:39-49 | the in-place loop with its wrapping key index is the key schedule |
| `Arc4.Base.GenerateBlock` | deps/cryptopp/arc4.cpp:67-71 | the next stretch of the key stream, and the state after it |
| `Arc4.Base.ProcessData` | deps/cryptopp/arc4.cpp:73-100 | the data under the key stream, in place or into another buffer, and nothing else is written |
| `Arc4.Base.DiscardBytes` | deps/cryptopp/arc4.cpp:102-119 | the state moves on by so many steps |
| `Arc4.Serve` | deps/cryptopp/arc4.cpp:67-119 | however the three calls are mixed, every octet of the one key stream is used in its turn |
| `Arc4.RoundTripInParts` | deps/cryptopp/arc4.cpp:28-119 | data processed in any pieces, and processed again under the same key in any other pieces, is the data |

## Left out

- Blocks.AdvancedProcessBlocks: only the chaining use (input is the running block, data xored in), which CMAC and
  CCM make of it; separate output buffers, counters and the reverse direction are other uses.
- BosCoster.GeneralCascadeMultiplication: the heap algorithms of the C++ library are functions on sequences with
  their published contract instead of in-place code; the range must not be empty, as in the source.
- Simultaneous.SimultaneousMultiply: exponents are nonnegative; the vectors of sliders and buckets are sequences,
  and group operations return values where the source returns references that the next operation overwrites.
- Cascade.CascadeScalarMultiply: the table is a local sequence that is updated, not an array.
- WindowSliders.WindowSlider.FindNextWindow: the exponent is an unbounded number; its storage in words matters only
  where the source asks for the number of bits in its words.
- Euclid.MultiplicativeInverse: integers only, of the Euclidean domains that the template takes.
- Cmac.CmacBase.Update: the register and the two subkeys, one buffer in the source, are three arrays.
- Ccm.Ccm.Resynchronize: key setup, and the text of exceptions; the totals of header and footer bytes, all of
  them given and taken, do not wrap at 2^64.
- Ccm.Ccm.constructor: the CBC block of a new object holds zeros, where the source has what is in its memory.
- Ccm.Ccm.ProcessData: input and output are separate; the in-place use is the same computation on one buffer.
- Ccm.Ccm.TruncatedFinal: tags of more than 16 bytes, which the source would read beyond the block without a check;
  and what a tag is over where the lengths were given twice or after some data, or where there is a message and none
  were given: it is then of the blocks that were authenticated, without more being said about those.
- Ccm.Authenticator.AuthenticateData: the buffer and the running block, two halves of one buffer in the source, are
  two arrays; block sizes other than 16 and the other subclasses of the base class.
- BaseNEncoder.Encoder.constructor: parameters are given as values, and the range of the bits per character, an
  exception in the source, is a precondition.
- BaseNFilters.Grouper.Put: output never blocks.
- Asn.DERReencode: the content of both queues after an error; a decoder inside another reads the queue itself, and
  the encoder is a queue whose content becomes an element at the end. Tags have one octet, as in the source.
- Asn.DEREncodeUnsigned: bit and byte counts of numbers by their meaning.
- Asn.OID.DEREncode: identifiers with fewer than two arcs, where the source has an assertion.
- Blake2.Hash.Keyed: salts and personalizations above their size, for which the source makes no object.
- Crc.EntriesOfCrc32: the other literal entries of the tables, of which it is not shown that they are what
  `TableIsDetermined` makes of these, and those for big-endian machines, the same words with their octets swapped.
- Arc4.Base.ProcessData: buffers that overlap without being the same.
- The compression functions of BLAKE2, the ciphers, and everything written in vector instructions.
- X.509 and PKCS #8 wrappers, encoded object filters, other hashes, random number generators and key agreement.
- Exponentiation in rings (algebra.cpp:316-337), which delegates to the multiplicative group.
- Timing, secure erasure and memory alignment, except for the alignment that the CRC loop depends on.
