# Verification of the mining core

A Dafny model of a Stratum V1 CPU miner for Bitcoin, with proofs about it. It covers four parts and
the statements that tie them together.

* **256-bit numbers and targets** (`Uint256.dfy`, `Uint256Text.dfy`, `Target.dfy`, `CompactForm.dfy`). Four limbs with
  carries, division on three paths, printing and parsing, compact and share targets. Limbs are
  natural numbers below 2^64 and every truncation is written out; `Uint256.Value` is the number a
  limb sequence stands for.
* **Hashing** (`Fips180.dfy`, `Sha256.dfy`, `Hex.dfy`, `Header.dfy`, `Work.dfy`, `Merkle.dfy`,
  `Pool.dfy`, `Numerals.dfy`). `Fips180.dfy` is SHA-256 as FIPS 180-4 defines it, on bit strings; its
  tables, functions, rounds and padding are pinned down in other terms by `Fips180Roots.dfy`,
  `Fips180Bits.dfy` and `Fips180Forms.dfy`. The byte-wise implementation
  refines it, the midstate path agrees with hashing the header, and the server's reconstruction of
  a submitted share agrees with both. That reconstruction (`Pool.dfy`) follows sections 8.1 to 8.5
  of the protocol document under doc; the Python program under src/repro computes the same.
* **Scanning, threads and the pool client** (`Scan.dfy`, `Mining.dfy`, `Walk.dfy`, `Stratum.dfy`,
  `ControlThread.dfy`, and the modules whose names begin with `Miner`).
* **Coinbase codecs** (`Bech32.dfy`, `Bech32Field.dfy`, `Bech32Example.dfy`, `Regroup.dfy`,
  `CoinbaseTx.dfy`, `CoinbaseForms.dfy`).

`BitMath.dfy`, `Bytes.dfy` and `Wrappers.dfy` hold what the others share. `dafny verify
dfyconfig.toml` checks everything.

## The two threads

`Miner.dfy` is a transition system. A state holds the client state, the generation counter, the
published slot, the share queue, a program point with local data for each thread, one stop flag for
each, and two records that the program does not keep: the work given each generation, and the
shares found, stale, accepted, rejected and lost. A step is one atomic operation of one thread, or a
stop request; what a thread does with its own data belongs to the neighbouring step. Publishing is
two steps, because the counter moves (src/main.cpp:475-476) before the slot is written
(src/main.cpp:478-481). The control thread's steps are those of src/main.cpp:356-405, 454-529 and
850-896 with src/stratum_client/stratum_client.cpp:113-260; the worker's those of
src/main.cpp:407-436, 714-825 and 898-944 with src/mining_job/scan.cpp:16-94. A run is any list of
steps.

The invariants (`MinerSafety.Inv`): each generation has one work, prepared from the job and
difficulty of its moment; the slot holds the current generation, or the one before it half way
through a publish; the worker's registers come from published work and its chunks span all nonces;
every copy of a share is in exactly one place; every share found was built from the work of its
generation and meets that target; a share being submitted is of the current generation; a lost share
has a cause.

Some things one might expect do not hold of the code. Each is stated with its exact condition:

* The newest work need not be that of the client's current state. It is until a drift: a line read
  while a share is being submitted, or a new subscription read by a poll (`TouchExactly`,
  `InTouchExactly`, `DriftFound`, `DriftsHappen`).
* The idle wait drops a share of empty work (`IdleLosesExactly`, `VacuousWorkExists`).
* A share may be found twice, because a worker found stale before the slot is written takes the old
  work again (`FoundAgainExactly`, `FoundTwiceIsEarly`); none is submitted twice (`SubmittedAtMostOnce`).
* The same strings may be submitted twice, but only under two generations (`RepeatedStringsExactly`,
  `SubmittedAgain`).
* An eight-byte extranonce2 counter wraps instead of overflowing (`WidestCounterWraps`).
* Bytes that decode need not be the serialisation of their transaction (`CanonicalExactly`,
  `LongFormDecodes`).

The header template reads 48 bytes past the 80-byte header (src/mining_job/header.cpp:91); the model
passes arbitrary bytes there and shows that the template does not depend on them. The comment on stream input says that 0x is accepted for
hexadecimal; the code accepts it in decimal mode only, and the model follows the code. The comment at
src/sha256/sha256.cpp:18 names section 4.4.2 of FIPS 180-4; the constants are those of section 4.2.2.

## Model

| member | source | states |
|---|---|---|
| Uint256.Less | src/util/uint256.hpp:145-151 | the limb comparison from the top decides the order of the two 256-bit values |
| Uint256.AddCarry | src/util/uint256.hpp:446-453 | sum and carry out together are a + b + carry, and the carry is again 0 or 1 |
| Uint256.SubBorrow | src/util/uint256.hpp:455-465 | difference minus borrow out is a - b - borrow, and the borrow is again 0 or 1 |
| Uint256.Add | src/util/uint256.hpp:535-542 | the sum modulo 2^256 |
| Uint256.Sub | src/util/uint256.hpp:544-551 | the difference modulo 2^256, also when it is negative |
| Uint256.PartialSumFits | src/util/uint256.hpp:593-598 | no partial sum of the multiplication exceeds 128 bits |
| Uint256.MulAddRow | src/util/uint256.hpp:591-602 | one row adds a limb times the lower limbs of b at its place; what is lost is a multiple of 2^256 |
| Uint256.Mul | src/util/uint256.hpp:587-604 | the truncated schoolbook product is the product modulo 2^256 |
| Uint256.ShiftLeftAssign | src/util/uint256.hpp:216-241 | overwriting the limbs in place, for every unsigned s: the old value times 2^s modulo 2^256 |
| Uint256.ShiftRightAssign | src/util/uint256.hpp:243-267 | overwriting the limbs in place, for every unsigned s: the old value divided by 2^s, rounded down |
| Uint256.ShiftLeft | src/util/uint256.hpp:207-210 | the same on a copy |
| Uint256.ShiftRight | src/util/uint256.hpp:211-214 | the same on a copy |
| Uint256.And | src/util/uint256.hpp:174-180 | limb-wise and is the bitwise and of the values |
| Uint256.GetBit | src/util/uint256.hpp:467-471 | the bit is the parity of the value divided by 2^i |
| Uint256.SetBit | src/util/uint256.hpp:473-477 | adds 2^i exactly when the bit was clear |
| Uint256.Shl1 | src/util/uint256.hpp:479-487 | doubles the value modulo 2^256, the carry crossing all limbs |
| Uint256.DivModU64 | src/util/uint256.hpp:519-531 | quotient and remainder of a 256-bit number by any non-zero limb |
| Uint256.IsPowerOfTwoAndCtz | src/util/uint256.hpp:494-515 | true exactly for powers of two, with the exponent |
| Uint256.DivideBit | src/util/uint256.hpp:636-643 | one round keeps the quotient so far, r < d and r <= n >> (i + 1), so shl1 never drops a set bit even for d > 2^255 |
| Uint256.LongDivision | src/util/uint256.hpp:634-644 | all rounds together: n = q d + r with r < d |
| Uint256.DivModPower | src/util/uint256.hpp:624-632 | the shift-and-mask path: n = q d + r with r < d |
| Uint256.DivMod | src/util/uint256.hpp:612-645 | on all three paths n = q d + r with r < d; zero and zero for a zero divisor |
| Uint256.Divide | src/util/uint256.hpp:647-650 | the quotient rounded down, zero for a zero divisor |
| Uint256.FromBytesLe | src/util/uint256.hpp:298-311 | the little-endian number of 32 bytes |
| Uint256Text.ParseBase | src/util/uint256.hpp:739-753 | accepts exactly the non-empty numerals of the base with underscores; the result is their value modulo 2^256, zero on failure |
| Uint256Text.Read | src/util/uint256.hpp:869-906 | one token, with 0x and a plus sign accepted in decimal mode only: fails exactly when the digits are empty or not of the base |
| Uint256Text.SplitChunks | src/util/uint256.hpp:803-808 | the pieces recombine to the number, the number left strictly shrinks, and at most five pieces are needed |
| Uint256Text.PrintOct | src/util/uint256.hpp:790-833 | 21-digit chunks print the octal numeral without leading zeros; showbase adds a 0 except for zero |
| Uint256Text.PrintDec | src/util/uint256.hpp:835-864 | 19-digit padded pieces print the decimal numeral without leading zeros |
| Uint256Text.PrintHex | src/util/uint256.hpp:762-787 | nibbles print the hexadecimal numeral without leading zeros |
| Uint256Text.Print | src/util/uint256.hpp:757-865 | prefix and numeral of the value in the selected base |
| Uint256Text.ParseRender | src/util/uint256.hpp:739-753 | reading a numeral gives the number, in every base from 2 to 16 |
| Uint256Text.PrintedParses | src/util/uint256.hpp:739-865 | what is printed parses to the value and no prefix of it overflows 256 bits; hexadecimal with showbase does not parse in its own base |
| Uint256Text.PrintThenRead | src/util/uint256.hpp:757-906 | the round trip returns every 256-bit value, and fails exactly for hexadecimal with showbase |
| Uint256Text.PrintHexThenReadDec | src/util/uint256.hpp:883-888 | hexadecimal with showbase does read back in decimal mode, for every value |
| Uint256Text.DigitsAscend | src/util/uint256.hpp:731-737 | the digits are in their order, in either case, and nothing else is a digit |
| Target.ExpandCompactTarget | src/mining_job/target.cpp:15-26 | the value of the compact form, kept to 256 bits; what that value is, the rows of CompactForm say |
| Target.ShareTargetFromDifficulty | src/mining_job/target.cpp:34-62 | which difficulties are refused and why; otherwise floor(diff1 2^32 / s) for the rounded s, whatever llround returns outside its range |
| Target.ShareTargetFromInteger | src/mining_job/target.cpp:64-70 | for whole difficulties below 2^31 exactly floor(diff1 / D), and which are refused |
| Target.NumeratorFits | src/mining_job/target.cpp:61 | the shifted numerator fits 256 bits |
| Target.ShareTargetAntitone | src/mining_job/target.cpp:39-61 | a larger s never raises the target |
| Target.ShareTargetWhole | src/mining_job/target.cpp:39-61 | scaling by 2^32 costs nothing for whole difficulties |
| Target.ShareTargetBound | src/mining_job/target.cpp:39-61 | for real D the error satisfies abs(target D - diff1) < D + diff1 / (2 s) |
| Target.HashMeetsTarget | src/mining_job/target.cpp:72-79 | true exactly when the 32 digest bytes, last byte first, are not above those of the target |
| Target.MeetsExactly | src/mining_job/target.cpp:72-79 | a digest meets a target if and only if it is its 32 little-endian bytes, or at the highest index where they differ its byte is smaller |
| Target.ZerosExactly | src/mining_job/target.cpp:72-79 | 2^(8 (32 - k)) - 1 is met if and only if the last k bytes of the digest are zero |
| CompactForm.EncodeThenExpand | src/mining_job/target.cpp:15-26 | expanding the encoding of v by its byte length and top three bytes gives v with all but those three bytes cleared |
| CompactForm.CanonicalReencodes | src/mining_job/target.cpp:15-26 | a canonical compact form is the encoding of the number it expands to |
| CompactForm.CodecExactly | src/mining_job/target.cpp:15-26 | expanding and encoding returns a compact form if and only if it is canonical |
| CompactForm.CompactScaling | src/mining_job/target.cpp:15-26 | for every form: size 3 is the coefficient without its sign bit, one size more is a factor of 256 modulo 2^256, one size less drops a byte |
| Sha256.PaddingForBitLength | src/sha256/sha256.cpp:60-78 | a 0x80 byte, zeros, and the bit length as eight big-endian bytes |
| Sha256.PadBytesBits | src/sha256/sha256.cpp:60-78 | the padded bytes are the padded bit string of FIPS 180-4 section 5.1.1, a whole number of blocks |
| Sha256.MakeSchedule | src/sha256/sha256.cpp:99-110 | the message schedule of section 6.2.2 step 1 |
| Sha256.RunSchedule | src/sha256/sha256.cpp:112-146 | the 64 rounds and final additions of section 6.2.2 steps 2 to 4, over the tables and functions that the next rows pin down |
| Sha256.CompressBlock | src/sha256/sha256.cpp:194-196 | the compression of one block as FIPS 180-4 defines it |
| Sha256.Sha256Words | src/sha256/sha256.cpp:148-169 | the hash equals the bit-string SHA-256 of FIPS 180-4 for every message below 2^61 bytes |
| Sha256.HashDigestWords | src/sha256/sha256.cpp:171-200 | one compression of the digest with its constant padding |
| Sha256.HashDigest | src/sha256/sha256.cpp:198-200 | that compression is SHA-256 of the big-endian bytes of the digest, so the byte round trip between the passes can be skipped |
| Sha256.DblSha256Words | src/sha256/sha256.cpp:212-215 | the bytes of the result are SHA-256 of SHA-256 |
| Sha256.DigestWordsToBytesBe | src/sha256/sha256.cpp:217-225 | eight big-endian words |
| Fips180Roots.RoundConstants | src/sha256/sha256.cpp:19-30 | section 4.2.2: each of the 64 constants is the first 32 bits of the fractional part of the cube root of the prime with its number, with primes by their definition and roots by integer inequalities |
| Fips180Roots.InitialHashValue | src/sha256/sha256.cpp:32-34 | section 5.3.3: the same for square roots and the first eight primes |
| Fips180Bits.ChSelects | src/sha256/sha256.cpp:36-38 | each bit of Ch is the bit of y or of z, as the bit of x selects |
| Fips180Bits.MajIsMajority | src/sha256/sha256.cpp:40-42 | each bit of Maj is the majority |
| Fips180Bits.BigSigmasAreParities | src/sha256/sha256.cpp:44-50 | each bit of the upper sigmas is the parity of three bits at cyclic distances |
| Fips180Bits.SmallSigmasAreParities | src/sha256/sha256.cpp:52-58 | in the lower sigmas the third bit does not come round |
| Fips180Bits.PlusIsAddition | src/sha256/sha256.cpp:115-118 | adding zero changes nothing, adding a successor gives the successor of the sum |
| Fips180Bits.Successor | src/sha256/sha256.cpp:115-118 | the successor is binary counting, and the last word is followed by zero |
| Fips180Forms.WindowIsSchedule | src/sha256/sha256.cpp:99-110 | the schedule is read off a window of sixteen words that slides |
| Fips180Forms.RoundsAreSequences | src/sha256/sha256.cpp:112-136 | the working variables after each round are the last four terms of two sequences that feed each other |
| Fips180Forms.CompressIsSum | src/sha256/sha256.cpp:138-146 | the next hash value adds the last four terms of each sequence to the one before |
| Fips180Forms.PaddingExactly | src/sha256/sha256.cpp:60-78 | the padding is the only bit string that is the message, a one, zeros and the length in 64 bits, in as few blocks as that takes |
| Hex.IsLowerHexString | src/util/hex.cpp:45-52 | exactly the even-length lower-case hexadecimal strings, the empty one included |
| Hex.HexRoundTrip | src/util/hex.cpp:82-130 | decoding encoded bytes returns them |
| Hex.HexRoundTripText | src/util/hex.cpp:82-130 | encoding decoded text returns it |
| Hex.HexToBytes | src/util/hex.cpp:82-104 | succeeds exactly on such strings, with the bytes whose encoding they are |
| Hex.HexToArray32 | src/util/hex.cpp:106-117 | the same for exactly 64 characters |
| Hex.BytesToHex | src/util/hex.cpp:119-130 | the encoding of the bytes |
| Hex.HexFromU32Be | src/util/hex.cpp:24-56 | the encoding of the four big-endian bytes |
| Hex.U32FromHexBe | src/util/hex.cpp:132-151 | succeeds exactly on 8 lower-case digits; the nibble loop gives the big-endian word of the bytes |
| Hex.HexFromU64Be | src/util/hex.cpp:62-80 | the encoding of the low bytes of the value, refused above eight |
| Numerals.HexIsNumeral | src/util/hex.cpp:119-130 | the hexadecimal text of bytes is the numeral of their big-endian number, leading zeros included |
| Numerals.ExtranonceIsNumeral | src/util/hex.cpp:62-80 | the extranonce2 text is the counter in two hexadecimal digits a byte |
| Numerals.NonceIsNumeral | src/mining_job/work_state.cpp:113-121 | the submitted nonce is the nonce in eight hexadecimal digits |
| Header.LeFieldAsWord | src/util/endian.hpp:50-56 | a field written little-endian and read as a SHA-256 word is byte-swapped |
| Header.ByteswapEachU32 | src/util/endian.hpp:76-81 | reverses the bytes of each of the eight words in place |
| Header.FlipTwice | src/util/endian.hpp:76-81 | flipping twice changes nothing |
| Header.LastFields | src/mining_job/header.cpp:47-73 | the header ends with nbits and the nonce, little-endian |
| Header.MakeShaInputHeaderBytes | src/mining_job/header.cpp:47-73 | the 80 bytes: version, prevhash, merkle root, ntime, nbits, nonce |
| Header.MakeShaHeaderTemplate | src/mining_job/header.cpp:79-109 | midstate and second block do not depend on the 48 bytes read beyond the header |
| Header.HeaderTemplate.SetHeaderNonce | src/mining_job/header.cpp:111-115 | replaces the nonce word and nothing else |
| Header.HeaderTemplate.HashHeaderTemplate | src/mining_job/header.cpp:117-119 | two compressions from the midstate |
| Header.TemplateHash | src/mining_job/header.cpp:79-119 | the template path is the double SHA-256 of the 80-byte header |
| Header.MidstateAgrees | src/mining_job/header.cpp:47-119 | after any sequence of nonce patches ending in n the fast path is the double SHA-256 of the header built with n |
| Work.MaxExtranonce2Value | src/mining_job/work_state.cpp:18-28 | 2^(8 size) - 1, refused above eight bytes |
| Work.ExtranonceInjective | src/util/hex.cpp:62-80 | different counters within the size have different hexadecimal forms |
| Work.CoinbaseDecodes | src/mining_job/coinbase.cpp:285-303 | the decoded coinbase is the concatenation of the decoded parts |
| Work.MakeCoinbaseHex | src/mining_job/coinbase.cpp:264-295 | fails exactly when a part is not lower-case hexadecimal or the extranonce2 has the wrong length |
| Work.BuildCoinbase | src/mining_job/coinbase.cpp:297-309 | hex, bytes and double SHA-256 of the assembled coinbase |
| Work.MerkleFold | src/mining_job/merkle.cpp:31-49 | folds the branch into the hash without reversing a byte, to the root that the next rows pin down; fails exactly on a branch that is not 32 bytes of hex |
| Merkle.FoldIsRoot | src/mining_job/merkle.cpp:31-49 | folding the first leaf with its branch gives the root of the tree: neighbours hashed in pairs, left before right, the last of an odd level with itself |
| Merkle.BranchIgnoresFirst | src/mining_job/merkle.cpp:31-49 | the branch does not depend on the first leaf, so the pool can send it before the coinbase is known |
| Merkle.PreparedRootIsTreeRoot | src/mining_job/work_state.cpp:59-87 | the merkle root of prepared work is the root of the tree whose first leaf is the double SHA-256 of its coinbase |
| Pool.FoldIsServerRoot | src/repro/repro_ckpool_python.py:55-58 | the server, going over the branch from its front, gets the same root |
| Work.PrevhashShaInput | src/mining_job/work_state.cpp:37-41 | the job prevhash with the bytes of each word reversed |
| Work.PrepareWork | src/mining_job/work_state.cpp:59-87 | succeeds exactly on well-formed jobs with a counter within the size, tells which error applies, and yields the prepared work |
| Work.HashPreparedWorkNonce | src/mining_job/work_state.cpp:89-95 | the digest of the prepared template with the nonce |
| Work.HashOfPrepared | src/mining_job/work_state.cpp:59-95 | that digest is the double SHA-256 of the header of the job, the folded root and the nonce |
| Work.MakeShareSubmission | src/mining_job/work_state.cpp:113-121 | job id, extranonce2 and ntime of the prepared work, the nonce as big-endian hex |
| Work.DistinctCoinbases | src/mining_job/work_state.cpp:59-87 | different counters build different coinbase bytes |
| Pool.FlippedHeader | src/repro/repro_ckpool_python.py:63-85 | flip_80 of the intermediate header is byte for byte the header the miner hashes |
| Pool.SubmissionValid | src/mining_job/work_state.cpp:113-121 | every submission made from prepared work has well-formed fields |
| Pool.EndToEnd | src/repro/repro_ckpool_python.py:47-85 | whenever work can be prepared, for every nonce the server pipeline (sections 8.1 to 8.5 of the document under doc) applied to the job and the submitted strings gives the digest the miner computed |
| Scan.WorkState.SetNonceTo | src/mining_job/scan.cpp:59-62 | the scanned work is the prepared work with this nonce |
| Scan.WorkState.WithNonce | src/mining_job/work_state.cpp:164-169 | a copy with the nonce, the original unchanged |
| Scan.WorkState.AdvanceExtranonce2 | src/mining_job/work_state.cpp:157-162 | the next counter modulo 2^64 and nonce 0, or unchanged with the overflow error exactly when the counter is past the size |
| Scan.ScanNonceRange | src/mining_job/scan.cpp:28-107 | why and when the scan stopped, and the reports and counts for exactly the nonces evaluated; the last one is left out when the scan went stale |
| Scan.StaleAtFirstLook | src/mining_job/scan.cpp:16-24 | the generation is looked at once every interval nonces and at no other time, and the scan goes stale at the first look that finds another |
| Scan.NonceValue | src/mining_job/scan.cpp:59-62 | the nonce word is the nonce, as the header holds it |
| Scan.ReportsExact | src/mining_job/scan.cpp:52-94 | reported are exactly the evaluated nonces that meet the share target, ascending, with their digest and block flag |
| Scan.BlocksAreFlagged | src/mining_job/scan.cpp:81-94 | when the network target is not above the share target the blocks found are the flagged reports |
| Mining.BackendScan | src/mining_job/cpu_backend.cpp:12-37 | one candidate for each report, built from a work of its own with the expected generation |
| Mining.MiningCoordinator.SetJob | src/mining_job/coordinator.cpp:12-17 | prepares the work again under the given counter and moves its generation, or changes nothing |
| Mining.MiningCoordinator.ScanRange | src/mining_job/coordinator.cpp:27-64 | refused without prepared work; otherwise hands over each reported share with its submission |
| Mining.FoundSharesAreGenuine | src/mining_job/coordinator.cpp:50-61 | the server rebuilds each share handed over to the hash of its candidate, and that meets the share target |
| Mining.MakeScanChunk | src/main.cpp:726-737 | starts at the nonce, holds at most the chunk size, and is shorter only at the last nonce |
| Mining.HandleScanResult | src/main.cpp:802-825 | stale adopts, stop exits, otherwise the next nonce or the next extranonce2, with worker and coordinator kept on the same work |
| Walk.ScanNextChunk | src/main.cpp:917-937 | one turn of the inner loop: the shares of the chunk, then the next position, or the overflow |
| Walk.NextLinear | src/main.cpp:802-825 | an exhausted chunk leads to the pair right after it; below size 8 it overflows exactly when no pair is left |
| Walk.WalkTiles | src/main.cpp:917-937 | for any chunk size the pairs scanned are consecutive from the start, without gap or overlap; at size 8 modulo 2^96 |
| Walk.WalkCompletes | src/main.cpp:802-825 | below size 8 every remaining pair is scanned at its place in the order, and then the overflow is raised |
| Walk.WalkNeverRepeats | src/mining_job/work_state.cpp:157-162 | no two steps of such a walk hash the same coinbase with the same nonce |
| Walk.WidestCounterWraps | src/mining_job/work_state.cpp:158 | at size 8 the pair after the last is the first one again |
| Stratum.FoldSplit | src/stratum_client/stratum_client.cpp:26-75 | the fold over a stream does not depend on how the stream is split |
| Stratum.InvalidatesExactly | src/stratum_client/stratum_client.cpp:36-58 | the invalidation flag covers every change of job or difficulty, passes over exactly the changes of subscription, and is raised otherwise only by a repeated notification |
| Stratum.KnownIsLast | src/stratum_client/stratum_client.cpp:26-75 | what is known after any lines is the last subscription, the last job and the last difficulty among them, and the client is ready if and only if there is one of each of the first two |
| Stratum.LastJob | src/stratum_client/stratum_client.cpp:182-184 | the raw text kept is that of the same last notification |
| Stratum.StratumClient.Subscribe | src/stratum_client/stratum_client.cpp:90-92 | sends the request under the next id |
| Stratum.StratumClient.SuggestDifficulty | src/stratum_client/stratum_client.cpp:94-103 | refuses a difficulty that is not positive without using an id, otherwise sends it under the next one |
| Stratum.StratumClient.Authorize | src/stratum_client/stratum_client.cpp:105-111 | keeps the user as worker name and sends the request under the next id |
| Stratum.StratumClient.ApplyParsedMessage | src/stratum_client/stratum_client.cpp:26-75 | the effect of one message on subscription, job and difficulty, and its flags |
| Stratum.StratumClient.HandleMessage | src/stratum_client/stratum_client.cpp:175-190 | the same for a line, with the summary and the last notification kept for reporting; text without a message changes nothing else |
| Stratum.StratumClient.RunUntilReady | src/stratum_client/stratum_client.cpp:113-119 | reads no further than the first line after which subscription and job are known; the state is the fold of the lines consumed |
| Stratum.StratumClient.Poll | src/stratum_client/stratum_client.cpp:196-209 | at most one line, none when the socket reports no bytes; the state is the fold of the lines consumed |
| Stratum.StratumClient.SubmitShare | src/stratum_client/stratum_client.cpp:211-260 | sends one request under a new id and returns the first answer to that id; all other lines only enter the fold |
| ControlThread.ShareQueue.Push | src/main.cpp:124-130 | appends at the end |
| ControlThread.ShareQueue.TryPop | src/main.cpp:132-139 | takes the oldest share, if any |
| ControlThread.ShareQueue.WaitPopFor | src/main.cpp:141-160 | takes the oldest share unless stopped or timed out |
| ControlThread.HandleFoundShare | src/main.cpp:424-436 | counts the share and queues it last |
| ControlThread.HandlePopped | src/main.cpp:366-387 | a stale share is discarded without a request; another is submitted and counted as its own answer says, or not at all when an error is raised |
| ControlThread.DrainShareQueue | src/main.cpp:356-405 | exactly the queued shares of the generation are submitted, in order, each counted once; the rest are discarded; an error loses exactly the share it was raised at |
| ControlThread.NextWork | src/main.cpp:462-473 | job, subscription and difficulty prepared as work with both targets, or refused where a conversion is |
| ControlThread.PublishLatestWork | src/main.cpp:454-483 | publishes the work of the client state under the next generation, or leaves generation and slot alone, telling an unready client from a raised error |
| ControlThread.ControlIdleWait | src/main.cpp:520-529 | at most moves the oldest share to the end; loses it exactly when stopped after taking it or when its work is empty |
| MinerSafety.Reachable | src/main.cpp:850-944 | every state of every interleaving satisfies all the invariants listed above |
| MinerSafety.InvKept | src/main.cpp:850-944 | every step of either thread keeps them |
| MinerSafety.SlotKept | src/main.cpp:475-481 | the slot and counter stay in step across both halves of a publish, and the published generation never falls |
| MinerSafety.WorkerKept | src/main.cpp:911-937 | the worker scans published work only, under a counter that was prepared from that work, in chunks of all nonces |
| MinerSafety.ControlConserves | src/main.cpp:356-405 | no step of the control thread makes or loses a copy of any share |
| MinerSafety.WorkerConserves | src/main.cpp:424-436 | nor does any step of the worker |
| MinerTheorems.EarnedMeans | src/main.cpp:766-780 | the server rebuilds an earned share to its hash, which meets the target of the work it was published under |
| MinerTheorems.SubmittedShares | src/main.cpp:356-405 | throughout every submission in every interleaving the share is of the current generation, carries the strings of the job in the slot, and meets its target by the server's own computation |
| MinerTheorems.PublishedGenerationLag | src/main.cpp:475-481 | the published generation is the counter, or exactly one behind it in the middle of a publish |
| MinerPublication.TouchExactly | src/stratum_client/stratum_client.cpp:193-260 | from a state whose newest generation is the work of the client state, a step starts a publish, or stays in touch if and only if it is not a drift: a line read while submitting that changes the client state, or a new subscription read by a poll |
| MinerPublication.TakeInTouch | src/main.cpp:462-476 | taking a generation brings the published work and the client state together |
| MinerPublication.InTouchExactly | src/main.cpp:454-494 | in every run the newest work is the client's if and only if the client state is that of the last take |
| MinerPublication.DriftFound | src/stratum_client/stratum_client.cpp:229-259 | whenever a run outside startup and publishing is out of touch, a drift after the last take is the cause |
| MinerSearch.StepsAreTheScan | src/mining_job/scan.cpp:52-94 | running the worker through any part of a chunk finds and queues exactly the shares the scan methods hand over for it, in the same order |
| MinerSearch.ExhaustiveKept | src/main.cpp:917-937 | every step keeps: each share due at a pair the worker has passed in its work has been found |
| MinerSearch.NothingMissed | src/main.cpp:898-937 | in every run no share is missed among the pairs passed, and under the current generation each is found exactly once |
| MinerTheorems.SharesConserved | src/main.cpp:356-452 | shares found are exactly those pending, queued, held, stale, accepted, rejected or lost; none is lost before a stop or a failure unless some published work is vacuous |
| MinerTheorems.IdleLosesExactly | src/main.cpp:520-529 | the share the idle wait holds is put back if and only if no stop was requested and its work is not vacuous |
| MinerTheorems.EmptyWorkExactly | src/mining_job/work_state.cpp:139-142 | the work of a share counts as empty exactly for a job without id and coinbase parts |
| MinerTheorems.VacuousWorkExists | src/mining_job/work_state.cpp:139-142 | such work can be prepared |
| MinerTheorems.StalenessFrom | src/mining_job/scan.cpp:16-24 | each step on older work uses up one of the hashes left before the next check |
| MinerTheorems.StalenessBound | src/main.cpp:739-751 | once generation g is in the slot, any continuation hashes at most 16384 nonces of older work in total, across chunks and adoptions |
| MinerTheorems.EarnedHeader | src/main.cpp:462-473 | the hash of an earned share is that of a header whose last four bytes hold its nonce, and the network target is what bytes 72 to 75 of that header expand to |
| MinerStop.StoppedWorkerEnds | src/mining_job/scan.cpp:54-56 | after a stop request, in every continuation: no nonce is hashed, nothing is found but the one share being checked or counted, and five moves end the worker |
| MinerStop.StoppedControlEnds | src/main.cpp:870-896 | after a stop request, once past the drain it was in, the control thread answers and discards no share and ends within four moves |
| MinerStop.IdleExactly | src/main.cpp:874-895 | the idle wait follows exactly a pass that popped nothing and whose poll got no message |
| MinerStop.AnsweredExactly | src/stratum_client/stratum_client.cpp:240-256 | a submission ends exactly with the response to its own id and is counted as that response says |
| MinerStop.StartedExactly | src/stratum_client/stratum_client.cpp:113-119 | the first publish follows exactly the line that completes subscription and job |
| MinerStop.StopRaises | src/main.cpp:957-968 | a stop request raises its own flag and does nothing else; nothing else touches the flags |
| MinerStop.FailsExactly | src/main.cpp:850-896 | the control thread fails exactly on a broken connection while it reads, and on work that cannot be published |
| MinerStop.ExitsExactly | src/main.cpp:870 | it exits exactly at the top of its loop, when stopped |
| MinerStop.TakesExactly | src/main.cpp:454-476 | it takes the next generation exactly when it prepares work that can be published, and goes on without one before subscription and job are known |
| MinerStop.WorkerExitsExactly | src/main.cpp:898-937 | the worker exits exactly when it sees the stop while it waits or before a hash |
| MinerStop.WorkerWaitsExactly | src/mining_job/scan.cpp:16-24 | it goes back to wait exactly when nothing is published, when stopped between chunks, or when every 16384th hash of a chunk finds another generation |
| MinerStop.WorkerFailsExactly | src/main.cpp:802-825 | it fails exactly on work that cannot be prepared: that of the slot, or of the next extranonce2 after the last nonce |
| MinerControl.FirstInFirstOut | src/main.cpp:124-160 | over every run the queue is what was in it and all that was pushed since, in that order, without as many at the front as were taken |
| MinerControl.QueueStep | src/main.cpp:124-160 | a step takes the share at the front, appends at the back, or leaves the queue alone |
| MinerOnce.SubmittedAtMostOnce | src/main.cpp:898-938 | no share is submitted twice, in any run at sizes below 8 and in any run of fewer than 2^96 steps at size 8, although the worker may scan the same work again |
| MinerOnce.NextPlace | src/main.cpp:802-825 | unless the counter wraps, the worker's next nonce is the next place of the search space |
| MinerOnce.EqualSubmissionsAreOne | src/mining_job/work_state.cpp:113-121 | within a generation equal submitted strings mean the same share |
| MinerRepeats.WorkerReaches | src/main.cpp:917-937 | while its work is current the worker reaches every pair that can be prepared, over all chunks |
| MinerRepeats.StaleWorkerAdopts | src/main.cpp:407-422 | a worker found stale and not stopped has, three steps on, taken the work in the slot from its first pair |
| MinerRepeats.FoundAgainExactly | src/main.cpp:475-481 | when the worker looks at the slot between the halves of a publish, a share of the old work can be found again if and only if it is among the first 16383 nonces of the first counter |
| MinerRepeats.ReadoptingArises | src/main.cpp:475-481 | that situation arises when a generation is taken just before the worker checks |
| MinerRepeats.FoundTwiceIsEarly | src/main.cpp:739-751 | in every run a share found more than once is of a generation no longer current, and from before the first check of its work |
| MinerRepeats.RepeatedStringsExactly | src/mining_job/work_state.cpp:113-121 | two different submitted shares of a run carry the same strings if and only if their generations differ and job id, ntime, extranonce2 and nonce agree |
| MinerRepeats.SubmittedAgain | src/main.cpp:874-878 | and they do: a share whose hash meets the target of another difficulty too is found and submitted again with the same strings when that difficulty arrives |
| MinerControl.Connect | src/main.cpp:852-857 | the three startup requests use the ids 1 to 3 and leave the client as the transition system starts with it |
| MinerControl.PublishIsARun | src/main.cpp:454-494 | the two publishing steps together do what the publishing method does |
| MinerControl.DrainIsARun | src/main.cpp:356-405 | an undisturbed drain is a run of control steps: the shares the drain method submits are answered each by its verdict, the others discarded |
| Bech32.Bech32Polymod | src/mining_job/coinbase.cpp:145-162 | the loops compute the polymod of BIP 173 as a fold of one linear step |
| Bech32.ShiftedLinear | src/mining_job/coinbase.cpp:152-158 | the step is linear over exclusive or |
| Bech32.StepInjective | src/mining_job/coinbase.cpp:152-158 | the step is injective on 30-bit states |
| Bech32Field.PolymodOfSymbols | src/mining_job/coinbase.cpp:145-162 | the polymod is the remainder of a polynomial over the field of 32 elements, by the generator of BIP 173 |
| Bech32Field.PolymodIsRemainder | src/mining_job/coinbase.cpp:145-162 | the same from any 30-bit state |
| Bech32Field.AllDouble | src/mining_job/coinbase.cpp:147-149 | symbol by symbol the five constants are the generator and its doubles in that field |
| Bech32.Bech32HrpExpand | src/mining_job/coinbase.cpp:164-179 | high bits, a zero, low bits of the prefix |
| Bech32.HrpParts | src/mining_job/coinbase.cpp:168-176 | the two parts of a character are its quotient and remainder by 32 |
| Bech32.ChecksumVerifies | src/mining_job/coinbase.cpp:203-215 | expanded prefix, data and emitted checksum have polymod 1, for every prefix and data of any length |
| Bech32.SingleChangeDetected | src/mining_job/coinbase.cpp:145-162 | replacing one symbol always changes the polymod, at any length |
| Bech32.CorruptionRejected | src/mining_job/coinbase.cpp:203-215 | so no one-symbol corruption of an encoding verifies |
| Bech32.BurstDetected | src/mining_job/coinbase.cpp:145-162 | nor does any change within six consecutive five-bit symbols |
| Bech32.Bech32Encode | src/mining_job/coinbase.cpp:203-228 | prefix, separator, and the characters of data and checksum |
| Bech32.EncodedDecodes | src/mining_job/coinbase.cpp:203-228 | every encoding reads back as its prefix and data, the separator being the last 1 |
| Bech32Example.ShortestExample | src/mining_job/coinbase.cpp:203-228 | the prefix a without data is encoded as a12uel5l, the shortest valid string that BIP 173 gives |
| Bech32Example.Alphabet | src/mining_job/coinbase.cpp:143 | symbol v is written as character v of the alphabet of BIP 173 |
| Regroup.ConvertBits8To5 | src/mining_job/coinbase.cpp:181-201 | the bit string of the bytes regrouped by five, ceil(8 n / 5) symbols, filled up with fewer than five zeros, although the accumulator overflows |
| Regroup.RegroupedBack | src/mining_job/coinbase.cpp:181-201 | regrouping the symbols by eight returns the bytes, at any length |
| Regroup.DecodeP2wpkhAddress | src/mining_job/coinbase.cpp:331-347 | the address of a version 0 program of 20 bytes reads back as that program; other scripts give the empty string |
| Regroup.DecodeP2wshAddress | src/mining_job/coinbase.cpp:349-365 | the same for 32 bytes |
| Regroup.AddressStart | src/mining_job/coinbase.cpp:331-365 | every address starts with bc1q |
| CoinbaseTx.ByteReader.ReadU8 | src/mining_job/coinbase.cpp:34-37 | one byte, or the end-of-input error |
| CoinbaseTx.ByteReader.ReadU32Le | src/mining_job/coinbase.cpp:39-47 | four bytes little-endian, or the error |
| CoinbaseTx.ByteReader.ReadU64Le | src/mining_job/coinbase.cpp:49-57 | the loop gives eight bytes little-endian, or the error |
| CoinbaseTx.ByteReader.ReadCompactSize | src/mining_job/coinbase.cpp:59-73 | the four forms of a CompactSize |
| CoinbaseTx.ByteReader.ReadBytes | src/mining_job/coinbase.cpp:75-82 | exactly the requested bytes, never beyond the input |
| CoinbaseTx.DecodeCoinbase | src/mining_job/coinbase.cpp:367-430 | the transaction the bytes read as with the description of each output, or the first error, reserving included; every loop ends because each element consumes input |
| CoinbaseTx.SerializedDecodes | src/mining_job/coinbase.cpp:367-430 | decoding any serialised one-input transaction, legacy or as in BIP 144, returns its non-witness fields and takes the whole input |
| CoinbaseTx.ExtensionRejected | src/mining_job/coinbase.cpp:425-427 | bytes added to a transaction that decodes are reported as trailing |
| CoinbaseTx.TruncationRejected | src/mining_job/coinbase.cpp:85-89 | a transaction cut short anywhere does not decode |
| CoinbaseTx.CountIsPaidFor | src/mining_job/coinbase.cpp:392-421 | a claimed count that is accepted is covered by the input: nine bytes an output, one a witness item |
| CoinbaseTx.Describe | src/mining_job/coinbase.cpp:108-127 | the type of an output script, with the address of a version 0 witness program |
| CoinbaseTx.ScriptTypeExactly | src/mining_job/coinbase.cpp:108-127 | each name is given exactly to the scripts of its template, and the last one to all others |
| CoinbaseTx.CompactExtent | src/mining_job/coinbase.cpp:59-73 | a first byte 253 + j announces the number in the next 2^(j + 1) bytes, a smaller one is the number |
| CoinbaseTx.Ends | src/mining_job/coinbase.cpp:367-430 | the version is the first four bytes of a transaction, the lock time the last four, and marker and flag are bytes 4 and 5 |
| CoinbaseForms.CompactBack | src/mining_job/coinbase.cpp:59-73 | the bytes read for a number are its CompactSize exactly when they are as few |
| CoinbaseForms.DecodedBack | src/mining_job/coinbase.cpp:367-430 | what decodes fits its fields, and with shortest forms throughout it is its own serialisation |
| CoinbaseForms.SerializedForms | src/mining_job/coinbase.cpp:367-430 | every serialised transaction decodes with shortest forms throughout |
| CoinbaseForms.CanonicalExactly | src/mining_job/coinbase.cpp:59-73 | bytes that decode are the serialisation of what they decode to if and only if every CompactSize read is in its shortest form |
| CoinbaseForms.LongFormDecodes | src/mining_job/coinbase.cpp:59-73 | every legacy transaction also decodes from bytes that are not its serialisation |

## Left out

- Uint256Text.Read: starts from one token; the stream's own splitting at white space is not modelled.
- Uint256.DivMod: works on sequences of limbs, as do all operations but the two in-place shifts, which work on arrays; aliasing of operands is not modelled.
- Target.ShareTargetFromDifficulty: difficulties are real numbers, so the rounding of `double` and `long double`, NaN and infinities are not modelled. From 2^63 on, where the C++ library leaves the result of `llround` open, it is an argument; the transition system and `ControlThread.NextWork` take zero there, which raises the error.
- Sha256.Sha256Words: messages of 2^61 bytes and more, where the 64-bit bit length wraps, are not covered; `Work.PrepareWork` asks the same of the coinbase parts.
- Scan.ScanNonceRange: the callback is modelled as the sequence of its calls; elapsed time, hash rate and the progress counter are left out, and the other threads are seen through a stop flag and a generation that are functions of the number of hashes done.
- Mining.MiningCoordinator.ScanRange: the share callback is always set, as it is in the program.
- Scan.WorkState.SetNonceTo: the work keeps its prepared work and a nonce instead of copies of the prepared fields; the fields are equal, their copying is not modelled.
- Stratum.StratumClient.SubmitShare: request ids are unbounded, so the overflow of the `int` after 2^31 requests is not modelled; the socket, the framing of lines and the JSON of messages are replaced by a given stream of parsed lines.
- Stratum.StratumClient.HandleMessage: the summary is kept as the message it describes, and an outgoing line as its request; their wording is not modelled.
- Stratum.StratumClient.Poll: whether the socket reports bytes is an argument; a line already buffered is not handled by the next poll unless it does.
- ControlThread.DrainShareQueue: this and the other methods of its module run undisturbed; what the worker can do in between is in the transition system.
- MinerOnce.SubmittedAtMostOnce: at extranonce2 size 8 only runs of fewer than 2^96 steps, because after 2^96 nonces of one work the counter wraps and the walk repeats (`Walk.WidestCounterWraps`).
- MinerTheorems.SharesConserved: counts are unbounded, so the 64-bit wrap of the counters is not modelled.
- CoinbaseTx.DecodeCoinbase: the number of outputs for which memory can be reserved is an argument.
- Bech32.Bech32Encode: symbols above 31, for which the program would index past its table, are excluded.
- The memory order of the atomics: each atomic operation and each locked section is one step.
- The console, the event queue's contents, the status line and signal handling: they only display. A stop request may come at any step.
- Startup requests of the client before the first line is read: the transition system starts after them (`MinerControl.Connect`).
- Prevout descriptions, ASCII runs, hexadecimal display forms, literals, `numeric_limits`, and the remaining operators of the 256-bit type: easy or for display.
- The two reproduction programs under src/repro: fixed inputs.
- The cryptographic strength of SHA-256: only which function is computed matters here.
