# Verified model of the miner's hard core

A Dafny model of a GPU miner for two coins, Alphanumeric (BLAKE3 over a 92-byte header) and CapStash
(Whirlpool over an 80-byte header), and proofs about the parts where a mistake would be silent: the parallel
nonce scan, the optimised hash paths, 256-bit target arithmetic, the protocols between threads, and the
Stratum text layer. `dafny verify dfyconfig.toml` checks everything.

## How it is organised

**Parallel nonce scan.** `ScanKernel.dfy` turns one launch of the scan kernel into a transition system: any
number of threads walk a grid-stride loop and take their shared-memory accesses one at a time, in any order,
while the host may overwrite the live generation between any two of them. The CUDA and the HIP kernel differ
only in how deficits are added up (`Config.cuda`). `ScanInvariant.dfy` proves what every interleaving keeps;
`ScanPrompt.dfy` proves how soon a find or a cancel stops it, and `ScanWrap.dfy` what becomes of a launch whose 32-bit index wraps. `ScanHost.dfy` is the host loop that
cuts a 64-bit range into launches; `AlphaScan.dfy` puts the prepared job and the word-path share test into it.
`DeficitReduction.dfy` is the two-level warp-shuffle sum.

**Hash paths.** `Blake3Reference.dfy` is the byte path, `Blake3WordPath.dfy` the word path with its hoisted
mixes, literal schedule and split final round, `AlphaShare.dfy` the header packing, the target comparison and
the equality of the two paths. `WhirlpoolCore.dfy` and `Whirlpool.dfy` do the same for the midstate path of the
Whirlpool miner. `MerkleDamgard.dfy` is the streaming hash context; `CapHash.dfy` connects it with the GPU hash. `CapShare.dfy`
takes the Whirlpool path on to the share test: 64-bit words as the machine compares them, the numbers their bytes
denote, and the difficulty.
The BLAKE3 mixing function, XOR and the Whirlpool tables and round constants are parameters, so the proofs are
about order, schedule, padding and state, for any tables.

**Targets.** `Targets.dfy` has the limb arithmetic that scales the consensus target by the pool difficulty and
the job object whose target it sets; `ShareTarget.dfy` the byte-wise long division of the Whirlpool miner.
`Radix.dfy` and `Words.dfy` hold positional numerals, sums and machine words.

**Protocols and loops.** `CancelProtocol.dfy` is the notify/cancel protocol between the network and the mining
thread with the device generation that carries a cancel into a running batch, `AlphaLoop.dfy` and
`CapStashLoop.dfy` are the two mining loops.

**Text layer.** `StratumJson.dfy` (escape, split, unquote; strings as in section 7 of RFC 8259),
`StratumClient.dfy` (matching responses to submits), `LineFraming.dfy` (cutting a byte stream into lines).

## What came out

- The scan kernel's comment says that `idx + stride` cannot wrap because the stride stays below 2^25. The code
  does not bound the stride by that: `WrapIff` gives the exact condition (`count + stride <= 2^32`),
  `GridFitsInPractice` two easy ways to meet it, and `WrapWitness` a configuration the code accepts that does
  not meet it. Under `GridFits`, this condition on a call's largest launch, the accounting is exact. Without it a
  call of one launch that finds nothing has hashed every nonce and still reports 0 hashes, under every schedule
  (`Scan92`, `AccountingBreaks`).
- `make_share_target` is the exact quotient for every divisor up to 2^56. Beyond that it can lose bits in
  `rem << 8`; `Fits` is the exact condition, and without it the target is strictly harder than it should be, so
  a share that passes still meets its difficulty.
- A share can pass both staleness tests one job late while the next job is still being published: because that job
  was counted before the generation was sampled (`OneBehindIsPossible`) or between the two tests
  (`LateBumpPasses`). `SharePasses` gives the exact condition for a share to go out. Two jobs late is impossible.
- Every thread polls before its every 256th nonce, so a cancel or a find leaves at most 256 nonces per thread to be
  hashed; a call that is already cancelled hashes exactly 255 in each thread that has as many.
- A cancel reaches a running batch through a device generation that is pushed after the cancel flag is set. A
  miner that adopts the job in between launches a batch which that push then drains with no cancel pending, and
  the loop goes on behind nonces it never hashed (`OwnCancelDrainsItsJob`). `DrainWithoutCancel` gives the exact
  condition at launch under which this can happen.
- The length field of the streaming hash is right for every message below 2^64 bytes and for no longer one.
- A JSON string with a control character that has no two-byte escape does not come back: `\u00XX` decodes to
  the five characters `u00XX`. `ListRoundTrip` says that nothing else is lost.
- A submit response may arrive before the sending thread learns that its send failed; the share then counts as
  accepted although its caller was told -1. `AnsweredAndFailed` gives the exact condition, for every session with
  ids still unique: an answered id was also reported as failed if and only if a failed send found its id no longer
  pending, which `erase` in `submit_share` would tell. `AcceptedButNotSubmitted` is the smallest such session.

## Model

| member | source | states |
|---|---|---|
| DeficitReduction.ShuffleLoopSum | src/alphanumeric/alphanumeric_cuda_backend.cu:190-192 | whatever junk the halving shuffles leave in the upper lanes, lane 0 ends with the sum of the window modulo 2^32 |
| DeficitReduction.WarpReduce | src/alphanumeric/alphanumeric_cuda_backend.cu:190-205 | the loop as the kernel runs it leaves that sum in lane 0 |
| DeficitReduction.BlockDeficitIsSum | src/alphanumeric/alphanumeric_cuda_backend.cu:190-208 | for every block size that is a multiple of 32 up to 512, the two-level reduction delivers the sum of all thread deficits modulo 2^32, so the sum itself whenever it fits 32 bits |
| ScanKernel.IndexInRange | src/alphanumeric/alphanumeric_cuda_backend.cu:136-186 | the k-th index of a thread is below the nonce count exactly when k is below the closed-form iteration count |
| ScanKernel.ExpectedSum | src/alphanumeric/alphanumeric_cuda_backend.cu:184-186 | the closed-form counts of all threads add up to the launch size: no index assigned twice or dropped |
| ScanInvariant.InitInv | src/alphanumeric/alphanumeric_cuda_backend.cu:122-134 | a launch on a cleared result, whatever nonce and hash it still holds, starts in the invariant |
| ScanInvariant.StepInv | src/alphanumeric/alphanumeric_cuda_backend.cu:136-209 | every step of any thread, any group's deficit report and any generation write keep the invariant: each index hashed once by its owner, one winner owning the result block, nothing qualifying forgotten, deficit equal to the reported missing work |
| ScanInvariant.GroupReportIsRemaining | src/alphanumeric/alphanumeric_hip_backend.hip:174-185 | the CUDA block reduction and the HIP per-thread atomics both add exactly the work a group left undone |
| ScanInvariant.ExecInv | src/alphanumeric/alphanumeric_cuda_backend.cu:122-209 | the invariant holds after every legal interleaving |
| ScanInvariant.DrainedAccounting | src/alphanumeric/alphanumeric_cuda_backend.cu:172-208 | after a drained launch, nonces hashed plus added deficit equal the launch size |
| ScanInvariant.DrainedSound | src/alphanumeric/alphanumeric_cuda_backend.cu:162-169 | found means that nonce and hash belong to one hashed, qualifying nonce of this launch |
| ScanInvariant.DrainedComplete | src/alphanumeric/alphanumeric_cuda_backend.cu:136-170 | not found means that no hashed nonce qualifies, and that every nonce was hashed if the deficit is zero or no foreign generation was read |
| ScanInvariant.CanDrain | src/alphanumeric/alphanumeric_cuda_backend.cu:182-183 | no reachable state is stuck: some schedule drives every thread out and every report in |
| ScanInvariant.NoPushNoStale | src/alphanumeric/alphanumeric_cuda_backend.cu:321-331 | without a foreign generation write no thread ever reads one |
| ScanPrompt.StopsSoon | src/alphanumeric/alphanumeric_cuda_backend.cu:136-146 | from any reachable state with a find or a foreign generation, along every legal schedule, no thread hashes more than 256 further nonces |
| ScanPrompt.CancelReaches | src/alphanumeric/alphanumeric_cuda_backend.cu:136-146 | the same from the moment a running launch is sent another generation |
| ScanPrompt.CancelledLaunch | src/alphanumeric/alphanumeric_cuda_backend.cu:136-146 | a launch whose device is on a foreign generation from the start stops every thread at its first poll: at most 255 nonces each, and without a find exactly 255 or all the thread was given |
| ScanPrompt.ExecPolled | src/alphanumeric/alphanumeric_cuda_backend.cu:136-146 | over every interleaving a thread polls before its every 256th nonce and nowhere else |
| ScanHost.ClampThreads | src/alphanumeric/alphanumeric_cuda_backend.cu:258-265 | the block size is always a multiple of 32 between 32 and 512, and a legal request is kept |
| ScanHost.GridSize | src/alphanumeric/alphanumeric_cuda_backend.cu:267-274 | the grid has a thread for every nonce unless the device saturates first, and no block to spare |
| ScanHost.WrapIff | src/alphanumeric/alphanumeric_cuda_backend.cu:80-84 | the 32-bit loop increment never wraps if and only if count + stride is at most 2^32 |
| ScanHost.GridFitsInPractice | src/alphanumeric/alphanumeric_cuda_backend.cu:267-274 | resident threads up to 2^31, or a power-of-two block size, rule the wrap out |
| ScanHost.WrapWitness | src/alphanumeric/alphanumeric_cuda_backend.cu:267-274 | a block size of 96 and a huge device make the index wrap from 2^31 - 1 to 63 |
| ScanHost.SliceProgress | src/alphanumeric/alphanumeric_cuda_backend.cu:392-410 | one slice extends accounting, soundness and completeness from the offsets before it to its own |
| ScanHost.CancelledRun | src/alphanumeric/alphanumeric_cuda_backend.cu:367-412 | every launch of a call that starts on a foreign generation stops at the first poll of its threads |
| ScanHost.Scan92 | src/alphanumeric/alphanumeric_cuda_backend.cu:367-429 | for every range, slicing and schedule the result is read off the device as the launches left it; on a grid that fits, hashes_scanned is exactly the number of nonces those launches hashed, each once, found comes with a hashed and qualifying share, not found means no hashed nonce qualifies, a full count means the range is searched, and without a stale generation a qualifying nonce is found; a call that starts on a foreign generation reports at most 255 nonces per thread, and without a find exactly what each thread has before its first poll; on a grid that does not fit, a call of one launch with nothing to find reports 0 although every nonce was hashed |
| ScanHost.SliceWraps | src/alphanumeric/alphanumeric_cuda_backend.cu:267-274 | a request whose grid does not fit makes a launch whose index wraps |
| ScanWrap.AccountingBreaks | src/alphanumeric/alphanumeric_cuda_backend.cu:136-208 | after every drained launch of a wrapping grid all nonces are hashed and still a deficit is added, of almost 2^32 when the counter starts at 0 |
| ScanWrap.ExecWraps | src/alphanumeric/alphanumeric_cuda_backend.cu:136-208 | every interleaving of such a launch keeps its own invariant: threads that wrap hash a second nonce and end with a deficit of -1 in 32 bits |
| ScanWrap.WrappingDrains | src/alphanumeric/alphanumeric_cuda_backend.cu:136-208 | and from every such state some schedule drains it |
| AlphaScan.ScanAlpha | src/alphanumeric/alphanumeric_cuda_backend.cu:353-429 | the same end to end with the prepared job and the word-path test: the reported hash is the byte-path BLAKE3 digest of the header with the reported nonce and is at most the target |
| AlphaScan.KernelTestsShares | src/alphanumeric/alphanumeric_cuda_backend.cu:138-169 | the test and the hash the kernel applies from the job constants are the byte path's for every header, target and nonce |
| Blake3Reference.BuildHeader92 | src/alphanumeric/alphanumeric_ref_hash.hpp:137-147 | the in-place stores produce the 92-byte serialization, every byte set |
| Blake3Reference.RoundByIndex | src/alphanumeric/alphanumeric_blake3_core.cuh:190-243 | a round is the four columns and four diagonals given by index arithmetic, with the message words in order |
| Blake3Reference.IvFromPrimes | src/alphanumeric/alphanumeric_ref_hash.hpp:32-35 | the initial chain holds the fractional bits of the square roots of the first eight primes |
| Radix.StoredNumber32 | src/alphanumeric/alphanumeric_ref_hash.hpp:46-51 | a stored word denotes itself as a little-endian number |
| Radix.StoredNumber64 | src/alphanumeric/alphanumeric_ref_hash.hpp:53-56 | so does a stored 64-bit word |
| Radix.Le32IsLittle | src/alphanumeric/alphanumeric_ref_hash.hpp:41-44 | loading four bytes reads the little-endian number they denote |
| Blake3WordPath.MixesCommute | src/alphanumeric/alphanumeric_blake3_core.cuh:159-189 | mixes on disjoint lanes may be exchanged |
| Blake3WordPath.HoistedRound | src/alphanumeric/alphanumeric_blake3_core.cuh:159-189 | six mixes done once per job, then the two that carry the nonce, make up the whole first round in its reference order |
| Blake3WordPath.BuildJobPre | src/alphanumeric/alphanumeric_blake3_core.cuh:134-171 | the prepared state and words do not depend on the nonce words |
| Blake3WordPath.LiteralSchedule | src/alphanumeric/alphanumeric_blake3_core.cuh:190-243 | the message indices written out for seven rounds are the iterated permutation |
| Blake3WordPath.Compress0FromPre | src/alphanumeric/alphanumeric_blake3_core.cuh:179-247 | starting from the prepared state gives the reference compression of block 0 with the nonce injected |
| Blake3WordPath.HeadThenTail | src/alphanumeric/alphanumeric_blake3_core.cuh:323-344 | the final round may be split: head diagonals first, the two deferred ones later |
| Blake3WordPath.Hash92Head | src/alphanumeric/alphanumeric_blake3_core.cuh:253-332 | the early word is word 0 of the full compression and the retained state is the one the tail completes |
| Blake3WordPath.Hash92Tail | src/alphanumeric/alphanumeric_blake3_core.cuh:336-344 | completing the retained state yields all eight words of the reference compression |
| AlphaShare.HeaderPacking | src/alphanumeric/alphanumeric_blake3_core.cuh:380-401 | packing the fields with zero nonce words and injecting the nonce later equals loading the serialized header with that nonce |
| AlphaShare.HeaderWordsFromFields | src/alphanumeric/alphanumeric_blake3_core.cuh:380-401 | the packing loop fills the 23 words in header order |
| AlphaShare.WordPathIsBytePath | src/alphanumeric/alphanumeric_ref_hash.hpp:117-159 | for all fields and nonces the prepared word path computes the byte-path hash |
| AlphaShare.HashOne | src/alphanumeric/alphanumeric_blake3_core.cuh:350-355 | the full word-path hash of a nonce is the reference digest |
| AlphaShare.WordsDenoteBytes | src/alphanumeric/alphanumeric_blake3_core.cuh:109-117 | eight big-endian words and the 32 bytes denote the same 256-bit integer |
| AlphaShare.WordCompareIsIntegerCompare | src/alphanumeric/alphanumeric_blake3_core.cuh:357-376 | comparing byte-swapped words from the top is comparing 256-bit integers |
| AlphaShare.WordsLeTargetTail | src/alphanumeric/alphanumeric_blake3_core.cuh:359-368 | the tail comparison decides words 1 to 7 lexicographically |
| AlphaShare.TestNonce | src/alphanumeric/alphanumeric_cuda_backend.cu:147-162 | first-word rejection plus tail accepts a nonce if and only if its byte-path digest is at most the target, and then yields that digest |
| AlphaShare.WordTestIsShareTest | src/alphanumeric/alphanumeric_cuda_backend.cu:147-162 | so does the word test as a function of the job constants, which is the one the scan uses |
| AlphaShare.HashLeTarget | src/alphanumeric/alphanumeric_runner.cpp:269-275 | the host's byte loop accepts a hash if and only if it is at most the target as a 256-bit integer |
| AlphaShare.HostRecheckAgrees | src/alphanumeric/alphanumeric_runner.cpp:269-275 | the lexicographic byte order is that integer order, so the host's recheck agrees with the kernel |
| WhirlpoolCore.CompressInterleaved | src/cuda_whirlpool_device.cuh:53-90 | key and message rounds interleaved are the compression defined by separate schedules |
| WhirlpoolCore.RoundShifts | src/cuda_whirlpool_device.cuh:32-46 | for every i, word i of a round is word i of the key xored with the lookups of table k at the word k places before word i, for k from 0 to 7 |
| WhirlpoolCore.CompressShifts | src/cuda_whirlpool_device.cuh:53-90 | the whole compression in that form by index: key schedule with the constant in word 0, ten rounds, state and block added at the end |
| WhirlpoolCore.RoundKeys | src/cuda_whirlpool_device.cuh:95-107 | the ten stored keys are the key schedule of the midstate |
| WhirlpoolCore.FeedForward | src/cuda_backend.cu:127-130 | dropping the zero message words from the feed-forward changes nothing |
| WhirlpoolCore.Block1Fold | src/cuda_backend.cu:104-133 | message-only rounds with precomputed keys give the folded words of the full compression |
| WhirlpoolCore.FoldThenSerialize | src/cuda_whirlpool_device.cuh:140-145 | folding words and serializing equals serializing and folding bytes |
| Whirlpool.SetupJob | src/cuda_backend.cu:302-335 | the job upload holds the midstate, its key schedule, the nonce-free words of the second block and the four target words |
| Whirlpool.SecondBlockWords | src/cuda_backend.cu:109-114 | the hard-coded words are those of the padded second block of the header carrying the nonce |
| Whirlpool.SameHash | src/cuda_whirlpool_device.cuh:109-138 | one compression from the midstate is the two-block hash |
| Whirlpool.HashNonce | src/cuda_backend.cu:104-133 | for every header and 32-bit nonce the miner's path yields the digest of cap_whirlpool80_cuda on the header with the nonce in bytes 76 to 79 |
| Whirlpool.FoldNonce | src/cuda_backend.cu:104-133 | the four folded words of a nonce, stored, are that digest |
| CapShare.WordOrder | src/cuda_backend.cu:164-169 | comparing two 64-bit words as the machine does is comparing the numbers their stored bytes denote |
| CapShare.EqualWords | src/cuda_backend.cu:164-169 | words whose stored bytes denote the same number are equal |
| CapShare.CompareWords | src/cuda_backend.cu:164-169 | the four-word cascade is <= of the 256-bit integers of the stored bytes |
| CapShare.KernelTest | src/cuda_backend.cu:104-180 | the kernel accepts a nonce if and only if the folded digest of the header carrying it is at most the target, and stores that digest |
| CapShare.MineNonce | src/cuda_backend.cu:104-180 | with the share target of a difficulty it accepts if and only if digest * difficulty is at most 0xffff * 2^208 when the difficulty fits, and never when that product is larger |
| MerkleDamgard.PaddedSize | src/crypto/whirlpool/md_helper.c:247-270 | padding takes an extra block exactly when the tail exceeds 31 bytes |
| MerkleDamgard.LengthFieldValue | src/crypto/whirlpool/md_helper.c:275-280 | the length field is the bit length of a message if and only if the message is shorter than 2^64 bytes |
| MerkleDamgard.DigestBlocks | src/crypto/whirlpool/md_helper.c:239-322 | the digest is one or two compressions away from the state after the last whole block |
| MerkleDamgard.Context.UpdateShort | src/crypto/whirlpool/md_helper.c:130-167 | buffering appends the bytes to the message absorbed so far |
| MerkleDamgard.Context.DirectBlocks | src/crypto/whirlpool/md_helper.c:204-213 | so does feeding whole blocks straight from the input |
| MerkleDamgard.Context.Update | src/crypto/whirlpool/md_helper.c:171-213 | so does every update call, short or long, aligned or not |
| MerkleDamgard.Context.Close | src/crypto/whirlpool/whirlpool.c:3458-3470 | closing yields the digest of the absorbed message and leaves a fresh context |
| MerkleDamgard.HashChunks | src/crypto/whirlpool/md_helper.c:124-346 | any list of update calls followed by close hashes their concatenation: the cutting does not matter |
| MerkleDamgard.EightyByteDigest | src/whirlpool/capstash_pow.cpp:103-112 | an 80-byte header takes two compressions, the second over its padded tail |
| CapHash.GpuHashIsCpuHash | src/cuda_whirlpool_device.cuh:109-146 | the GPU's full hash and the CPU's streaming hash agree on every header |
| CapHash.CheckNonce | src/whirlpool/whirlpool.cpp:214-222 | the startup comparison of a device hash with the CPU hash holds for every header and nonce |
| Targets.MultiplyLimbs | src/alphanumeric/alphanumeric_runner.cpp:319-327 | the nine limbs are the exact product; no intermediate leaves 64 bits |
| Targets.DivideLimbs | src/alphanumeric/alphanumeric_runner.cpp:329-336 | the nine quotient limbs are the exact floor and need no truncation |
| Targets.ScaleTarget | src/alphanumeric/alphanumeric_runner.cpp:294-351 | the scaled target is min(2^256 - 1, floor(base * 10^6 / den)) for every base and denominator |
| Targets.TargetFromDifficulty | src/alphanumeric/alphanumeric_runner.cpp:251-267 | setting bits one by one gives 2^256 - 1 shifted right by difficulty / 16 |
| Targets.NetworkIsQuotient | src/alphanumeric/alphanumeric_runner.cpp:251-267 | that number is 2^256 - 1 divided by two to the shift |
| Targets.CompareTargets | src/alphanumeric/alphanumeric_runner.cpp:269-284 | the byte comparison is 0 exactly for equal targets and negative exactly for a smaller number |
| Targets.AlphaJob.Apply | src/alphanumeric/alphanumeric_runner.cpp:353-376 | the job's target is the share target of its notify target, its difficulty and this denominator; a target of the pool's own, and only such a one, counts as explicit and is used as it is |
| Targets.ShareTargetLaws | src/alphanumeric/alphanumeric_runner.cpp:353-376 | an explicit target is used unchanged at every difficulty; sending the consensus target is the same as sending none; with local scaling off, or at difficulty 1, the consensus target stays as it is |
| Targets.HarderIsLower | src/alphanumeric/alphanumeric_runner.cpp:286-351 | a higher difficulty never gives an easier target |
| Targets.ApplyHistory | src/alphanumeric/alphanumeric_runner.cpp:1041-1056 | after any list of difficulty updates the target is the one of the latest alone: scalings never compound, and an explicit target survives them all |
| ShareTarget.Diff1Value | src/whirlpool/whirlpool.cpp:26-31 | the starting bytes stand for 0xffff * 2^208 |
| ShareTarget.SmallDivisorFits | src/whirlpool/whirlpool.cpp:33-41 | every divisor up to 2^56 fits |
| ShareTarget.MakeShareTarget | src/whirlpool/whirlpool.cpp:23-43 | the target is the exact quotient if no remainder reaches 2^56, and strictly below it otherwise |
| ShareTarget.LargeDivisorWraps | src/whirlpool/whirlpool.cpp:36-41 | a divisor of 2^63 is one where the 64-bit shift loses bits |
| ShareTarget.WordsAreBytes | src/cuda_backend.cu:330-333 | four little-endian words denote the 256-bit integer of the 32 bytes |
| CancelProtocol.StepKeepsInv | src/alphanumeric/alphanumeric_runner.cpp:1032-1190 | every step of either thread keeps the protocol invariant |
| CancelProtocol.NoCancelLost | src/alphanumeric/alphanumeric_runner.cpp:1083-1135 | in every reachable state without a pending cancel the held job is at least as new as every completed publication |
| CancelProtocol.PassingShareIsFresh | src/alphanumeric/alphanumeric_runner.cpp:1182-1190 | a share that passes the staleness tests is at most one version behind, and only while that version is being published |
| CancelProtocol.GenerationTest | src/alphanumeric/alphanumeric_runner.cpp:1140-1186 | from a sample of job_seq to the test that follows it, the test passes if and only if the bumps in between number a multiple of 2^64, and it is reached only by a scan that found a share |
| CancelProtocol.SharePasses | src/alphanumeric/alphanumeric_runner.cpp:1140-1190 | a share that passed it goes out if and only if no cancel is pending at the second test, and then no job was counted between the sample and the first test, short of 2^64 of them |
| CancelProtocol.LateBumpPasses | src/alphanumeric/alphanumeric_runner.cpp:1083-1190 | a share can also pass one job late because the next job is counted between the two tests |
| CancelProtocol.OneBehindIsPossible | src/alphanumeric/alphanumeric_runner.cpp:1083-1190 | the bound is reached, with both tests passing |
| CancelProtocol.HeldNeverGoesBack | src/alphanumeric/alphanumeric_runner.cpp:1127-1135 | the miner's copy never returns to an older job |
| CancelProtocol.AdoptionsConsumeCancels | src/alphanumeric/alphanumeric_runner.cpp:1126-1135 | over every run each adoption but the first consumes a cancel store of its own |
| CancelProtocol.RewindsAtMost | src/alphanumeric/alphanumeric_runner.cpp:1126-1135 | so the miner goes back to nonce 0 at most once more than cancels were stored |
| CancelProtocol.PendingCancelIsServed | src/alphanumeric/alphanumeric_runner.cpp:1126-1190 | every run in which the miner takes at most nine steps under a pending cancel clears the flag, and at that moment the miner holds the newest job, whatever the other threads do |
| CancelProtocol.PendingCancelStep | src/alphanumeric/alphanumeric_runner.cpp:1126-1190 | each miner step under a pending cancel brings it closer to adopting; steps of the network and the device never move it away |
| CancelProtocol.DrainWithoutCancel | src/alphanumeric/alphanumeric_cuda_backend.cu:321-373 | a batch can drain on a stale generation with no cancel pending if and only if it was launched between a cancel store and its request_cancel or while a generation write was still on its way |
| CancelProtocol.OwnCancelDrainsItsJob | src/alphanumeric/alphanumeric_runner.cpp:1083-1091 | such a launch is reached: a job's own cancel request drains its first batch after the flag was cleared |
| AlphaLoop.MiningLoop.Adopt | src/alphanumeric/alphanumeric_runner.cpp:1127-1135 | an adoption restarts at nonce 0 and keeps the chunk and the finds |
| AlphaLoop.MiningLoop.Batch | src/alphanumeric/alphanumeric_runner.cpp:1141-1222 | a failed scan moves nothing, an empty one moves by the launched count, a find moves just behind its nonce |
| AlphaLoop.RepeatNeedsWrap | src/alphanumeric/alphanumeric_runner.cpp:1219-1221 | two finds of one adoption share a nonce only after the 64-bit counter has wrapped |
| AlphaLoop.RunInv | src/alphanumeric/alphanumeric_runner.cpp:1126-1223 | over every run next_nonce is the wrapped place in the nonce stream of the adoption, and the finds come in the order of that stream |
| AlphaLoop.NoncesIncrease | src/alphanumeric/alphanumeric_runner.cpp:1126-1223 | over every run the nonces found in one adoption strictly increase for as long as that adoption has launched at most 2^64 |
| AlphaLoop.EveryFindIsReported | src/alphanumeric/alphanumeric_runner.cpp:1185-1222 | over every event list the k-th find carries the nonce of the k-th scan that found a share and the number of adoptions before it, and no such scan is left out |
| AlphaLoop.NothingSkipped | src/alphanumeric/alphanumeric_runner.cpp:1141-1222 | over every run each place of the nonce stream before the current one has been searched by an empty scan of its chunk or by a scan up to its find |
| AlphaLoop.Mine | src/alphanumeric/alphanumeric_runner.cpp:1126-1223 | the loop reports exactly the finds of its events, each scan that found a share once and in order and nothing else; the nonces reported in one adoption strictly increase until it has launched more than 2^64 |
| CapStashLoop.RolledIsCovered | src/whirlpool/whirlpool.cpp:348-355 | before extranonce2 advances past a value, every 32-bit nonce has been launched with it |
| CapStashLoop.BelowIsCovered | src/whirlpool/whirlpool.cpp:247-355 | everything below the end of a launch has been launched on its header: nothing is skipped |
| CapStashLoop.LaunchesAreDisjoint | src/whirlpool/whirlpool.cpp:247-355 | two launches of one job whose headers carry the same 32-bit extranonce2 share a nonce only if extranonce2 went all the way round, 2^32 rolls, in between |
| CapStashLoop.KeysNeverRepeat | src/whirlpool/whirlpool.cpp:279-332 | no submit key repeats between two clearings of the dedup set |
| CapStashLoop.MiningLoop.AdoptJob | src/whirlpool/whirlpool.cpp:176-188 | an adoption starts extranonce2 and nonces afresh and forgets keys only for a clean job |
| CapStashLoop.MiningLoop.Prepare | src/whirlpool/whirlpool.cpp:193-212 | when ready, the device holds the current header and the latest difficulty; the position is untouched |
| CapStashLoop.MiningLoop.SubmitShare | src/whirlpool/whirlpool.cpp:276-332 | a share is sent at most once per key, and recorded only if it was sent |
| CapStashLoop.MiningLoop.Iterate | src/whirlpool/whirlpool.cpp:191-355 | one pass takes the loop from any state to the specified next one, whose meaning PassLaunches and PassFails state |
| CapStashLoop.PassLaunches | src/whirlpool/whirlpool.cpp:191-355 | a pass whose setup and launch succeed logs one launch, of the next nonces on the current header and difficulty |
| CapStashLoop.PassFails | src/whirlpool/whirlpool.cpp:191-260 | a failed setup or launch logs nothing and leaves the position where it was |
| CapStashLoop.PassSends | src/whirlpool/whirlpool.cpp:276-332 | a share is sent and its key recorded if and only if its launch took place, it is not stale, its key is not in the dedup set and the send succeeds; nothing else is sent |
| CapStashLoop.Forgets | src/whirlpool/whirlpool.cpp:176-192 | keys are forgotten exactly by a clean job or when there are more than 10000 |
| CapStashLoop.KeysOnRecord | src/whirlpool/whirlpool.cpp:279-332 | in every run the dedup set holds exactly the keys sent since it was last emptied |
| CapStashLoop.RunLoop | src/whirlpool/whirlpool.cpp:174-356 | over any events the loop ends in the state they specify: its log, its position and the keys it sent |
| CapStashLoop.Run | src/whirlpool/whirlpool.cpp:174-356 | in every run each launch continues the one before it, and between two clearings of the dedup set no key is sent twice |
| StratumJson.JsonEscape | src/alphanumeric/alphanumeric_runner.cpp:77-100 | the loop computes the escaping whose meaning ListRoundTrip states |
| StratumJson.TrimSplits | src/alphanumeric/alphanumeric_runner.cpp:102-107 | trimming removes white space from both ends, all of it and nothing else |
| StratumJson.SplitArray | src/alphanumeric/alphanumeric_runner.cpp:115-141 | the flag-and-depth loop computes the split whose meaning SplitJoined states |
| StratumJson.UnquoteString | src/alphanumeric/alphanumeric_runner.cpp:143-169 | the loop computes the unquoting whose meaning ListRoundTrip states |
| StratumJson.SplitCuts | src/alphanumeric/alphanumeric_runner.cpp:115-141 | every nonempty body is its pieces with commas between them, cut at the top-level commas and nowhere else; the output is those pieces, trimmed |
| StratumJson.SplitCommas | src/alphanumeric/alphanumeric_runner.cpp:115-141 | conversely, pieces that hold no top-level comma come back, whatever they are |
| StratumJson.SplitValues | src/alphanumeric/alphanumeric_runner.cpp:115-141 | a list of JSON values of any kind and depth, strings as json_escape writes them, with any white space around them, is split into exactly those values |
| StratumJson.SplitJoined | src/alphanumeric/alphanumeric_runner.cpp:115-141 | in particular quoted strings come back, whatever bytes they contain |
| StratumJson.UnescapeEscape | src/alphanumeric/alphanumeric_runner.cpp:143-169 | unescaping an escaped string decodes every byte, control characters without a short escape into u00XX |
| StratumJson.EscapeIsStandard | src/alphanumeric/alphanumeric_runner.cpp:77-100 | a reader of section 7 of RFC 8259 gets back every escaped string byte for byte |
| StratumJson.UnquoteChars | src/alphanumeric/alphanumeric_runner.cpp:143-169 | a quoted string of any characters and escapes is unquoted to their standard meanings; an escape without one stands for its letter |
| StratumJson.UnescapeChars | src/alphanumeric/alphanumeric_runner.cpp:151-169 | unescaping gives every character its meaning and drops a last backslash |
| StratumJson.UnquoteOther | src/alphanumeric/alphanumeric_runner.cpp:143-169 | a number, a truth value or null is only trimmed |
| StratumJson.DecodedUnchanged | src/alphanumeric/alphanumeric_runner.cpp:77-100 | a string comes back unchanged if and only if it has no such control character |
| StratumJson.ListRoundTrip | src/alphanumeric/alphanumeric_runner.cpp:77-169 | escape, quote, join, split, unquote returns the list if and only if no string has such a control character |
| StratumClient.IdsDiffer | src/stratum_client.cpp:165-165 | issued ids differ until the 32-bit counter has gone round |
| StratumClient.LoginIds | src/stratum_client.cpp:138-147 | the login ids 1 and 2 are not issued within the first 2^32 - 100 submits, and 1 is the next |
| StratumClient.Client.Issue | src/stratum_client.cpp:162-173 | the counter is incremented with wrap-around and its new value is the id |
| StratumClient.Client.Finish | src/stratum_client.cpp:175-190 | a failed send takes its id back if it is still pending and reports -1 either way |
| StratumClient.Client.Response | src/stratum_client.cpp:209-238 | the handler runs exactly for a pending id, once, and a number beyond int is ignored |
| StratumClient.AnsweredOnce | src/stratum_client.cpp:209-238 | within 2^32 issues no id is answered twice |
| StratumClient.SessionCounts | src/stratum_client.cpp:162-238 | over all interleavings every id is in one place for each time it was issued: on its way, pending, answered or taken back |
| StratumClient.SessionIsWellAnswered | src/stratum_client.cpp:162-238 | over all interleavings: answers only for issued ids, no more of them than ids and no more than once per issue; within 2^32 issues none twice, and an answered id is reported as failed exactly for a late failure |
| StratumClient.AnsweredAndFailed | src/stratum_client.cpp:175-238 | an answered id was also reported as failed if and only if some failed send found its id no longer pending |
| StratumClient.VerdictsAreTheLines | src/stratum_client.cpp:209-238 | over every session the handler runs once for each line that answers a pending id, in order, with the id and the verdict of that line, and for no other |
| StratumClient.Session | src/stratum_client.cpp:162-238 | the client's handler calls, returned ids and counter are those the events specify, with the verdicts of the lines that answer a pending id |
| StratumClient.AcceptedButNotSubmitted | src/stratum_client.cpp:182-186 | the smallest such session: the response overtakes the failure of its own send |
| LineFraming.PiecesRejoin | src/stratum_client.cpp:269-273 | pieces, newlines and leftover put together are the stream, and no piece or leftover holds a newline |
| LineFraming.PiecesUnique | src/stratum_client.cpp:269-273 | any cut into newline-free pieces and leftover is this one |
| LineFraming.MoreData | src/stratum_client.cpp:261-273 | more data continues the leftover and never changes lines already cut |
| LineFraming.EndingsDoNotMatter | src/stratum_client.cpp:269-277 | lines ended by a newline alone or by a carriage return and a newline, in any mixture, are received as they were before their endings |
| LineFraming.EveryStreamIsLines | src/stratum_client.cpp:269-277 | and every stream is made of such lines |
| LineFraming.ReceivedUntilEnd | src/stratum_client.cpp:250-268 | the bytes received are those of the calls before the first close, error or empty read |
| LineFraming.LineReader.TakeLines | src/stratum_client.cpp:269-278 | the inner loop delivers every complete line of the buffer in order and keeps the rest |
| LineFraming.ReadAll | src/stratum_client.cpp:250-280 | the lines delivered depend only on the bytes received, not on how recv cut them up |

## Left out

- BLAKE3's rotations and XORs, Whirlpool's T-tables and round constants, and the Whirlpool-0/1 variants: data and bit tricks; the proofs hold for any.
- CUDA and HIP runtime calls, streams, pinned memory, device reset and failed launches inside one scan: foreign calls; a launch is a set of threads that step to completion before the host reads the result.
- Full coverage of a range by batches that drain early: the code does not promise it; ScanHost.Scan92 and CancelProtocol.DrainWithoutCancel say when it holds.
- Weak memory: atomics are sequentially consistent and locked sections atomic; the lanes of a warp run the shuffle reduction in lock-step.
- The conversion of a floating-point difficulty: the denominator (a 32-bit word, at least 1) and the rounded-up divisor are inputs.
- Difficulties of 2^64 and above, whose conversion to a 64-bit integer the language does not define.
- Regular expressions and field guessing in notifies and responses: a response line is its number and its result flag.
- Sockets, DNS, logging, dashboard, telemetry, command line, batch timing: the resized chunk is an arbitrary input.
- The clamp of blocks per multiprocessor to 1..256: its product with the multiprocessor count is an input of the scan.
- SHA-256, the merkle fold, nBits decoding and hex helpers: the same padding and arithmetic claims once more.
- The loop's rewind to nonce 0 after a difficulty update and after an adoption that precedes its own cancel: a share can be found again then; AlphaLoop.Mine counts these as new adoptions.
- Extra bits at the end of a hashed message: md_helper.c is modelled for whole bytes, as the Whirlpool wrapper calls it.
- ScanHost.Scan92: for a grid that does not fit, says nothing of calls of several launches or of calls that find something.
- AlphaScan.ScanAlpha: says nothing of those either.
- CapShare.MineNonce: one nonce; the loop around it has the grid stride and the compare-and-swap of the Alphanumeric kernel, without accounting.
