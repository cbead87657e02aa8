# isomdl: verified model of the digest lane, the session cryptography and the session protocol

This Dafny project models the parts of the isomdl library (ISO/IEC 18013-5 mobile
documents) whose correctness is hardest to see by reading, and proves what their
documentation promises.

* **SHA-256 twice, HMAC and HKDF.** `Fips180.dfy` transcribes FIPS 180-4 and
  `KeyedHash.dfy` RFC 2104 and RFC 5869; `Sha256Constants.dfy` derives the constants from
  the first sixty-four primes. `SimdSha256.dfy` is the eight-lane hash,
  `SessionCrypto.dfy` the streaming hash with its partial-block buffer and the HMAC
  and HKDF routines over caller-owned scratch memory. `ShaAgreement.dfy` shows that
  the two padders produce the same blocks.
* **The digest lane.** `DigestExecutor.dfy` proves the SIMD and pooled executors equal
  to the serial one and characterises the adaptive selector. `MdocPlanning.dfy` and
  `MdocDigestPlan.dfy` draw randomness from one tape and plan digest jobs;
  `MdocAssembly.dfy` is the assembly code, `MdocAssemblyExact.dfy` says exactly when it
  succeeds and with what, `MdocAssemblyFailures.dfy` where it stops and why,
  `MdocAssemblyOrder.dfy` that result order is invisible.
  `MdocBatch.dfy` and `MdocBatchTheorems.dfy` prove that a batch is its items one after
  another and what every value digest is.
* **The worker budget.** `WorkerBudget.dfy` is the lock-free counter with leases as
  interleaved atomic steps of any number of threads.
* **The session.** `SessionChannel.dfy`, `SessionNetwork.dfy` and `ReaderSession.dfy` are
  the encrypted channel over a network that drops, replays, reorders and injects;
  `DeviceResponse.dfy` and `DeviceSigning.dfy` are what the device returns and how it is
  signed, `DeviceSession.dfy` whole runs of its session manager on that network,
  `DeviceDelivery.dfy` what becomes of each message it seals; `Cbor.dfy` and
  `DeviceAuthPayload.dfy` are the hand-built payload of device authentication.

Code that changes state step by step is a class or a method with loops, proved against
a function or a specification; the theorems are lemmas about those. Random numbers are a
finite tape with one typed value per draw. Diffie-Hellman and authenticated encryption
are ideal, the hash crate is any function with the right lengths that is FIPS 180-4 on
SHA-256, and CBOR and COSE encoders that can fail are parameters.

What the proofs brought out, all following the code:

* The ordered assembly path accepts only plans whose job ids are 0, 1, 2, ... in the order
  the planned digests name them. `PathsAgreeExactly` says for every plan and result vector
  when choosing a path succeeds exactly where the path for any order does: always, except
  that results in plan order with digests of the right lengths are refused for a well-formed
  plan that is not numbered so. The code never meets the exception: its only caller of the
  assembly routine hands it planner plans, and on those the two paths agree for every
  result vector, value or error (`AssemblyPathsAgree`). For a plan made by hand the
  exception is real (`PathsDifferOnOtherPlans`), and where both paths fail their errors can
  differ (`FailuresCanDiffer`).
* A batch plans all items before it finishes any. Batch and one-by-one preparation succeed
  on the same inputs with the same values. They return the same error unless some item
  cannot be planned and, in caller order before it, one is planned that the finisher
  refuses (`FinisherRefusesFirst`); then, and only then, the batch reports the planning
  error and the one-by-one run the refusal (`BatchIsSequential`).
  `ErrorsCanDiffer` is such a batch of two items.
* Device authentication over raw transcript bytes accepts bytes after the transcript's item,
  because the decoder reads one leading item and ignores the rest
  (src/presentation/authentication/mdoc.rs:56-57, src/cbor.rs:21-30). The payload then no
  longer tells its parts apart: `PayloadReadsBack` and `PayloadIsInjective` give the exact
  condition, `TrailingBytesAreAmbiguous` two different inputs with one payload.
* The lane hash wraps its length field. `WrappedBitsExact` shows it is the true bit length
  exactly below 2^61 bytes, where the streaming hash starts to refuse.
* A request that opens but does not parse replaces whatever the device was signing
  (`DocumentsKeptExactly`; `RefusalDiscards` is the input).
* A sealed response waits until it is retrieved, and preparing again or a refused request
  overwrites it (src/presentation/device.rs:461-464, 497-500) although the counter has
  moved. The reader then accepts nothing the device sends from that message on.
  `DiscardsDecideDelivery` is the exact condition: after any run the reader can still be
  brought to accept the device's first n messages if and only if none of them was
  discarded. `PreparingAgainDiscards` is the shortest such run.

## Model

| member | source | states |
|---|---|---|
| Fips180.PaddingIsMinimal | src/simd_sha256.rs:120-122 | FIPS 180-4 padding uses the least number of zero bytes that completes a block |
| Fips180.FoldAppend | src/definitions/session_crypto.rs:59-88 | compressing a concatenation is compressing one part after the other, at any block boundary |
| SimdSha256.ConstantsAgree | src/simd_sha256.rs:12-92 | the owned tables are those of the specification |
| Sha256Constants.PrimesInOrder | src/simd_sha256.rs:12-92 | the sixty-four numbers the constants come from are 2 and each next prime |
| Sha256Constants.ConstantsAreRoots | src/simd_sha256.rs:12-92 | both round-constant tables are the first 32 fractional bits of the cube roots of those primes, both initial states of the square roots (sections 4.2.2 and 5.3.3 of FIPS 180-4) |
| Fips180.FunctionsOnBits | src/simd_sha256.rs:208-234 | where the four sigma functions move the lowest and highest bit, and the truth tables of Ch and Maj |
| Fips180.FirstRoundOfExample | src/simd_sha256.rs:153-168 | the first round on "abc" gives the working variables printed in the FIPS example |
| Fips180.ByteOrder | src/simd_sha256.rs:133-141 | words are read and written most significant byte first |
| Fips180.LengthFieldIsNumber | src/simd_sha256.rs:203-204 | the eight length bytes read back as the number of bits |
| SimdSha256.RotateRight | src/simd_sha256.rs:208-210 | the two-shift rotation is ROTR on every lane |
| SimdSha256.Choose | src/simd_sha256.rs:212-214 | Ch of FIPS 180-4 on every lane |
| SimdSha256.Majority | src/simd_sha256.rs:216-218 | Maj of FIPS 180-4 on every lane |
| SimdSha256.LaneBigSigmaZero | src/simd_sha256.rs:220-222 | the first upper-case sigma of FIPS 180-4 on every lane |
| SimdSha256.LaneBigSigmaOne | src/simd_sha256.rs:224-226 | the second upper-case sigma on every lane |
| SimdSha256.LaneSmallSigmaZero | src/simd_sha256.rs:228-230 | the first lower-case sigma on every lane |
| SimdSha256.LaneSmallSigmaOne | src/simd_sha256.rs:232-234 | the second lower-case sigma on every lane |
| SimdSha256.BlockCountIsPaddedLength | src/simd_sha256.rs:120-122 | the block count is the padded length in blocks, and no smaller count has room for the padding |
| SimdSha256.FillBlock | src/simd_sha256.rs:192-206 | for every block index the in-place filler leaves exactly that block of the padded message |
| SimdSha256.StageBlocks | src/simd_sha256.rs:128-131 | the staged blocks are block number `blockIndex` of each of the eight messages |
| SimdSha256.BuildSchedule | src/simd_sha256.rs:133-150 | every word of the vector schedule is, lane by lane, the FIPS schedule of that lane's block |
| SimdSha256.RoundStep | src/simd_sha256.rs:153-168 | one vector round keeps the working variables of all eight lanes equal to the FIPS ones |
| SimdSha256.RunRounds | src/simd_sha256.rs:152-168 | after 64 rounds every lane holds the FIPS working variables |
| SimdSha256.CompressLanes | src/simd_sha256.rs:152-178 | one pass replaces each lane of the state by the FIPS compression of its block |
| SimdSha256.HashEight | src/simd_sha256.rs:124-190 | eight messages of one block count give eight digests, each the lane hash of its own message |
| SimdSha256.HashManySameBlockCount | src/simd_sha256.rs:94-118 | if the grouping contract holds every output is the lane hash of its own input; if it fails the answer is false and no output cell has changed |
| SimdSha256.WrappedBitsExact | src/simd_sha256.rs:203 | the wrapped 64-bit length field is the true bit length if and only if the message is shorter than 2^61 bytes |
| SimdSha256.LaneSha256IsSha256 | src/simd_sha256.rs:94-118 | below 2^61 bytes the lane hash is SHA-256 of FIPS 180-4 |
| SessionCrypto.SecureSha256.Update | src/definitions/session_crypto.rs:59-88 | any call keeps: the state has absorbed the full blocks so far, the buffer holds exactly the remaining tail; the message grows by the input |
| SessionCrypto.SecureSha256.CompressBuffer | src/definitions/session_crypto.rs:114-121 | compresses the buffer once and clears it |
| SessionCrypto.SecureSha256.Finish | src/definitions/session_crypto.rs:90-112 | the digest is SHA-256 of everything absorbed, however it was cut into updates; all fields are zero afterwards |
| SessionCrypto.AbsorbBlock | src/definitions/session_crypto.rs:65-81 | completing a block moves the message from the buffer into the chaining value |
| SessionCrypto.PaddedSplits | src/definitions/session_crypto.rs:90-105 | the padded message is the full blocks followed by the one or two blocks the finish routine compresses |
| SessionCrypto.FinalBlocksFold | src/definitions/session_crypto.rs:90-105 | compressing the final blocks after the full ones is compressing the padded message |
| SessionCrypto.PadSwitch | src/definitions/session_crypto.rs:190-206 | one in-place xor turns the inner pad into the outer pad of RFC 2104 |
| SessionCrypto.HmacSha256Into | src/definitions/session_crypto.rs:170-208 | the output is the hash of the outer pad and of the hash of the inner pad and the concatenated parts, with the pads of section 2 of RFC 2104, for every key length and every split |
| KeyedHash.KeyBlockAt | src/definitions/session_crypto.rs:181-188 | the key block starts with the key, or with its digest when it is longer than a block, and zeros follow |
| SessionCrypto.HmacSha256WithScratch | src/definitions/session_crypto.rs:247-274 | on success the output is the HMAC and the scratch is zero; if the callback fails or panics, scratch and output are both zero |
| SessionCrypto.HkdfSha256With32Scratch | src/definitions/session_crypto.rs:283-317 | on success the output is RFC 5869 extract then expand to 32 bytes, the HMAC under HMAC(salt, key material) of the info and the byte 1, and the scratch is zero; otherwise scratch and output are both zero |
| SessionCrypto.DeriveSessionKey | src/definitions/session.rs:561-585 | the key is HKDF of the shared secret, salted with the hash of the transcript, under the reader or the device info bytes |
| SessionCrypto.InfosAreAscii | src/definitions/session.rs:572 | those bytes spell SKReader and SKDevice |
| KeyedHash.ExpandOneBlock | src/definitions/session_crypto.rs:300-317 | expanding to 32 bytes is a single HMAC over the info and the byte 1 |
| ShaAgreement.LaneBlocksArePrefix | src/simd_sha256.rs:192-206 | the first blocks the lane code stages are the beginning of the padded message |
| ShaAgreement.PaddersAgree | src/simd_sha256.rs:192-206 | below 2^61 bytes the staged blocks, the FIPS padded message and the blocks the streaming hash compresses are the same bytes, in the least number of blocks |
| ShaAgreement.DigestsAgree | src/definitions/session_crypto.rs:90-112 | so the lane digest is the digest of streaming the same message |
| DigestExecutor.HashChunksIsSerial | src/digest_executor.rs:98-102 | executing any pieces of a job list serially and joining the results is executing the whole list serially |
| DigestTypes.DigestSizes | src/digest_executor.rs:618-624 | digest lengths are 256, 384 and 512 bits |
| DigestExecutor.GroupIndicesExact | src/digest_executor.rs:149-164 | a group lists exactly the SHA-256 jobs of its block count, each once, in order |
| DigestExecutor.FillGroup | src/digest_executor.rs:165-184 | a group's slots are each filled once, by lanes or one by one, and no other slot changes |
| DigestExecutor.ExecuteSimdDigestJobs | src/digest_executor.rs:149-189 | for every mix of algorithms and lengths the SIMD executor succeeds with exactly the serial results, in caller order |
| DigestExecutor.ChunksFlatten | src/digest_executor.rs:596-604 | consecutive chunks concatenate back to the job list |
| DigestExecutor.ChunksCount | src/digest_executor.rs:596-604 | the number of chunks is the length divided by the chunk size, rounded up: the one number whose product with the size is at least the length and less than the length plus the size |
| DigestExecutor.ChunkAt | src/digest_executor.rs:596-604 | chunk i exists exactly when jobs are left at i times the size, and is the piece of that size, or all that is left, that starts there |
| DigestExecutor.StaticChunkSizeCovers | src/digest_executor.rs:612-616 | the chunk size is the least whose product with the number of workers covers the jobs, and is positive when there are any |
| DigestExecutor.PooledExecuteIsSerial | src/digest_executor.rs:579-608 | pooled execution equals serial execution for every worker count, in at most as many chunks as workers |
| DigestExecutor.SaturatingBytesExact | src/digest_executor.rs:534-576 | the saturating byte sums never saturate on addressable inputs |
| DigestExecutor.SelectorExact | src/digest_executor.rs:534-576 | native mode is chosen if and only if there are at least 512 jobs and 2 MiB, at least two processors, and no piece of the least covering chunk size holds more than half the bytes rounded up; then with as many workers as processors, at most four |
| DigestExecutor.TwoChunksDifferByAtMostOne | src/digest_executor.rs:534-576 | when it chooses two workers their byte sums differ by at most one |
| WorkerBudget.InvStep | src/digest_executor.rs:209-268 | every atomic step keeps permits available plus held equal to capacity, and a lease drop never over-releases |
| WorkerBudget.InvRun | src/digest_executor.rs:209-268 | the same over every run from a good state |
| WorkerBudget.BudgetConserved | src/digest_executor.rs:209-268 | in every interleaving of any number of threads, spurious exchange failures included, available plus held is the capacity, held never exceeds it, and the release assertion never fires |
| WorkerBudget.EnteringAsks | src/digest_executor.rs:585-590 | a call asks for the least of its configured workers, the budget and its jobs when all are at least two, and is serial at once otherwise |
| WorkerBudget.StepsKeepJobs | src/digest_executor.rs:579-608 | a step touches its own call only, which keeps its jobs until it leaves |
| WorkerBudget.ReturnedCallsAreSerial | src/digest_executor.rs:579-608 | a call that returns holds no permits and gives the serial results, or the redacted error exactly when its workers panicked |
| WorkerBudget.BudgetRestored | src/digest_executor.rs:257-268 | the whole budget is available exactly when no call holds a lease |
| WorkerBudget.GivingUpMeansContention | src/digest_executor.rs:217-243 | a call reads too small a counter exactly when the others hold too much at that instant |
| MdocPlanning.GenerateDigestId | src/issuance/mdoc.rs:1203-1215 | returns the first id on the tape not used before, marks it used and leaves the rest of the tape |
| MdocPlanning.ToIssuerNamespaces | src/issuance/mdoc.rs:800-834 | issues namespaces from the tape as the specification says that `IssuingExactly`, `ItemsFailAt` and `IssuingFailsAt` pin down |
| MdocPlanning.DrawnIdIsFresh | src/issuance/mdoc.rs:1203-1215 | a drawn id was not used before and something was taken from the tape |
| MdocPlanning.DrawIsFirstUnused | src/issuance/mdoc.rs:1203-1215 | the id drawn is the first one on the tape that is not used |
| MdocPlanning.FirstUnusedIsDrawn | src/issuance/mdoc.rs:1203-1215 | and the first one not used is drawn |
| MdocPlanning.NoneUnused | src/issuance/mdoc.rs:1203-1215 | drawing fails exactly when every id on the tape is used |
| MdocPlanning.DecoyIsDrawn | src/issuance/mdoc.rs:954-956 | the id drawn and the bytes filled next stand side by side on the tape |
| MdocPlanning.IssuedItemsAreDistinct | src/issuance/mdoc.rs:807-823 | one item per element in order, with its value and its encoding, all digest ids different |
| MdocPlanning.IssuedNamespacesMatch | src/issuance/mdoc.rs:800-834 | names, order, element keys and values are kept, each item has its own encoding, and digest ids never collide inside a namespace |
| MdocPlanning.IssuingExactly | src/issuance/mdoc.rs:800-834 | issuing gives certain namespaces if and only if they are the ones on the tape: each element with its key, value and encoding, the first unused id and the 16-byte salt right after it, end to end from the start, at least one namespace and no empty one |
| MdocPlanning.ItemsFailAt | src/issuance/mdoc.rs:807-823 | items fail at an element whose predecessors are issued, because the tape runs out there or its item cannot be encoded |
| MdocPlanning.IssuingFailsAt | src/issuance/mdoc.rs:800-834 | issuing fails at a namespace whose predecessors are issued, because it is empty or with its items' error |
| MdocDigestPlan.JobQueue.PushPlannedDigest | src/issuance/mdoc.rs:973-1001 | appends one job under the next job id and returns the planned digest naming it; fails only when the id would overflow |
| MdocDigestPlan.PlanDigestNamespace | src/issuance/mdoc.rs:913-970 | plans real items then decoys as the specification on the tape says |
| MdocDigestPlan.PlanDigestNamespacesForCredential | src/issuance/mdoc.rs:877-911 | plans all namespaces as the specification on the tape says, leaving the same tape |
| MdocDigestPlan.ItemsArePushed | src/issuance/mdoc.rs:939-950 | each real item gets its own digest id, job id, ordinal and encoded input |
| MdocDigestPlan.ItemInputIsTagged | src/issuance/mdoc.rs:939-950 | what is hashed for an item reads back as tag 24 over a byte string of exactly the item's bytes, with the shortest header |
| MdocDigestPlan.DecoysArePushed | src/issuance/mdoc.rs:953-967 | as many decoys as asked for, each the 512 bytes drawn right after its own id, in the stretch of tape these decoys used up; the ids are fresh and pairwise different |
| MdocDigestPlan.DecoysAreDrawn | src/issuance/mdoc.rs:953-967 | decoys are drawn end to end on the tape: each id the first not used by an item or an earlier decoy, each input the 512 bytes right after it |
| MdocDigestPlan.NamespacePlansExactly | src/issuance/mdoc.rs:913-1001 | planning a namespace fails only when job ids or draws run out, and the error says which |
| MdocDigestPlan.PlanIsWellFormed | src/issuance/mdoc.rs:877-970 | in every plan job ids are 0, 1, 2, ... in bijection with planned digests, real items first, then, if decoys are enabled, exactly as many as the count drawn at the start of the namespace's stretch of the tape, each with the bytes drawn in that stretch; the stretches lie end to end on the tape; digest ids never collide in a namespace |
| MdocDigestPlan.PlanRelabels | src/issuance/mdoc.rs:859-911 | planning under another credential id consumes the same tape and gives the same plan relabelled, or the same error |
| MdocAssembly.AssembleReorderedDigestBatches | src/issuance/mdoc.rs:1106-1201 | the loops over maps and sets compute the recursive specification, with its error precedence |
| MdocAssembly.AssembleOrderedDigestNamespaces | src/issuance/mdoc.rs:1022-1094 | the in-order loops compute their specification, with its error precedence |
| MdocAssembly.AssembleDigestNamespaces | src/issuance/mdoc.rs:1003-1012 | takes the ordered path exactly when the results follow plan order |
| MdocAssemblyExact.TakeJobsExactly | src/issuance/mdoc.rs:1137-1161 | taking a plan's results succeeds exactly when its jobs are its own, different and all answered; only those results leave the map |
| MdocAssemblyExact.FillNamespacesExactly | src/issuance/mdoc.rs:1162-1190 | filling namespaces succeeds exactly when planned digests are own, different, known, with different ids and names |
| MdocAssemblyExact.AssemblePlanExactly | src/issuance/mdoc.rs:1137-1194 | one plan is assembled exactly when it is well formed and answered |
| MdocAssemblyExact.BatchSucceedsExactly | src/issuance/mdoc.rs:1106-1201 | a batch is assembled if and only if credential ids differ, every plan is well formed, and the results are pairwise different and exactly the planned ones with matching ordinals and lengths; otherwise nothing is returned |
| MdocAssemblyExact.MapsDrawOnOwnResults | src/issuance/mdoc.rs:1106-1201 | every entry of a credential's map is the digest of the result with that credential's identity, and there are no other entries or namespaces |
| MdocAssemblyFailures.JobsFailAt | src/issuance/mdoc.rs:1137-1161 | taking results stops at a job whose predecessors are taken, and the error names the first of its checks that fails: credential, identity, result, ordinal, length |
| MdocAssemblyFailures.DigestsFailAt | src/issuance/mdoc.rs:1162-1183 | a namespace stops at a digest whose predecessors are filled, with the first of credential, job and digest id that is wrong |
| MdocAssemblyFailures.NamespacesFailAt | src/issuance/mdoc.rs:1162-1190 | filling stops at a namespace with its digests' error or because its name is taken |
| MdocAssemblyFailures.BatchFailsAt | src/issuance/mdoc.rs:1106-1201 | a batch fails because two results share an identity, or at the first plan that is wrong for the results left to it, or because results are left over, each with its own error |
| MdocAssemblyOrder.PermutationDoesNotMatter | src/issuance/mdoc.rs:1106-1201 | any permutation of the results gives the same value or the same error |
| MdocAssemblyOrder.OrderedSucceedsExactly | src/issuance/mdoc.rs:1022-1094 | the ordered path succeeds exactly when planned digests, jobs 0, 1, 2, ... and results march in step with fitting lengths, different ids and different names |
| MdocAssemblyOrder.OrderedImpliesReordered | src/issuance/mdoc.rs:1022-1104 | for any plan, success of the ordered path implies success of the other with the same maps |
| MdocAssemblyOrder.SequentialPathsAgree | src/issuance/mdoc.rs:1003-1104 | on plans numbered 0, 1, 2, ... both paths give the same value or error for every result vector |
| MdocAssemblyOrder.AssemblyPathsAgree | src/issuance/mdoc.rs:1003-1104 | the same for every plan the planner makes |
| MdocAssemblyOrder.ResultOrderIsInvisible | src/issuance/mdoc.rs:1003-1020 | so for such a plan every permutation of the results gives the same answer |
| MdocAssemblyOrder.OrderedNeedsSequential | src/issuance/mdoc.rs:1042-1052 | the ordered path accepts only plans numbered 0, 1, 2, ... |
| MdocAssemblyOrder.PathsAgreeExactly | src/issuance/mdoc.rs:1003-1104 | for every plan and result vector, choosing a path succeeds where the path for any order does unless the results follow plan order with digests of the right lengths and the plan is well formed but not numbered 0, 1, 2, ...: then, and only then, it alone fails; a success has the same value, and results out of order or a plan so numbered give the same error too |
| MdocAssemblyOrder.FollowingResultsAnswer | src/issuance/mdoc.rs:1096-1201 | results in plan order are assembled by the path for any order exactly when the plan is well formed and every digest has its algorithm's length |
| MdocAssemblyOrder.FailuresCanDiffer | src/issuance/mdoc.rs:1045-1067 | on a plan starting at job id 1 with a digest of the wrong length the paths report different errors |
| MdocAssemblyOrder.PathsDifferOnOtherPlans | src/issuance/mdoc.rs:1045-1047 | the excepted case exists: results in order that answer a hand-made plan starting at job id 1 |
| MdocBatch.ValidateMdocBatch | src/issuance/mdoc.rs:734-788 | validation succeeds exactly when every item is good, else reports the first bad item's error, a repeated identity first |
| MdocBatch.BuilderValidates | src/issuance/mdoc.rs:734-798 | a builder validates exactly when everything is present, its authorizations are not invalid and no namespace is empty; the inputs are its own, with decoys unless switched off; each error exactly when it is the first thing wrong |
| MdocBatch.PrepareMdoc | src/issuance/mdoc.rs:401-435 | single preparation under identity 0 computes its specification on the tape |
| MdocBatch.PrepareValidatedBatch | src/issuance/mdoc.rs:323-396 | batch preparation computes its specification on the tape |
| MdocBatch.PrepareMdocBatch | src/issuance/mdoc.rs:298-321 | nothing is drawn from the tape unless the whole batch is valid; an empty batch gives an empty answer |
| MdocBatch.AllJobsFollow | src/issuance/mdoc.rs:360-370 | the executor is given the jobs of all plans in caller order |
| MdocBatch.PlanOneStops | src/issuance/mdoc.rs:336-347 | planning an item fails with the error of issuing, else of digest planning |
| MdocBatch.PreparationStops | src/issuance/mdoc.rs:401-435 | a preparation stops with the error of the first stage that fails |
| MdocBatch.BatchStops | src/issuance/mdoc.rs:323-396 | so does a batch, and none of its plans is left without maps |
| MdocBatchTheorems.PooledExecutorIsLawful | src/digest_executor.rs:90-92 | pooled execution meets the contract asked of executors |
| MdocBatchTheorems.HashedPlanRelabels | src/issuance/mdoc.rs:859-875 | the credential id leaves no trace in the value digests |
| MdocBatchTheorems.LawfulResultsAssemble | src/issuance/mdoc.rs:371-377 | for plans of different credentials and any permutation of the serial results, even across credentials, each plan gets the hashes of its own jobs |
| MdocBatchTheorems.BatchIsSequential | src/issuance/mdoc.rs:323-435 | a batch with distinct ids succeeds exactly when its items prepared one after another do, with the same prepared mdocs in caller order and the same remaining tape; the errors are equal too unless an item cannot be planned and one before it is planned but refused by the finisher: then, and only then, the batch reports the planning error and the items one by one the refusal |
| MdocBatchTheorems.ErrorsCanDiffer | src/issuance/mdoc.rs:339-396 | two items, the first refused when finished and the second when encoded: one by one the first error is reported, by the batch the second |
| MdocBatchTheorems.PreparedFromInputs | src/issuance/mdoc.rs:401-470 | for any executor, the prepared namespaces are issued from the inputs' elements as above, and type, validity, key, algorithm and signature payload are the inputs' own |
| MdocBatchTheorems.PreparedMapsAreExact | src/issuance/mdoc.rs:401-470 | end to end: names, keys, values and encodings are the inputs' own, and each namespace's map is exactly real item id to hash of the encoded tag-24 item, plus, with decoys, exactly as many decoy ids as drawn at the start of the namespace's stretch of the tape, each to the hash of the 512 bytes drawn in that stretch right after that id; the stretches lie end to end from what issuing left to what preparing leaves |
| SessionChannel.VectorsAreInjective | src/definitions/session.rs:660-675 | an initialization vector tells its sender and its counter |
| SessionChannel.VectorLayout | src/definitions/session.rs:660-675 | the first eight bytes are the number 0 for the reader and 1 for the device, the last four the counter, most significant byte first |
| SessionChannel.MessageCounter.GetInitializationVector | src/definitions/session.rs:660-675 | advances the counter and gives its vector, or fails at 2^32 - 1 leaving it unchanged |
| SessionChannel.MessageCounter.Encrypt | src/definitions/session.rs:606-622 | a failed call leaves the counter as it was; a successful one seals under the next vector |
| SessionChannel.MessageCounter.Decrypt | src/definitions/session.rs:642-658 | the counter moves exactly when the ciphertext opens |
| SessionNetwork.BothSidesDeriveTheSameKeys | src/presentation/device.rs:355-378 | each side with its own scalar and the other's point starts in the same initial state, the reader's key under SKReader and the device's under SKDevice |
| SessionNetwork.OnlyTheNextOpens | src/definitions/session.rs:642-658 | of everything the network can deliver only the genuine next ciphertext opens |
| SessionNetwork.InvStep | src/presentation/device.rs:466-505 | every send or delivery keeps the session invariant |
| SessionNetwork.AcceptedIsPrefix | src/presentation/reader.rs:301-346 | in every run what each side accepted is a prefix of what the other sealed in that direction |
| SessionNetwork.VectorsNeverRepeat | src/definitions/session.rs:606-675 | no two ciphertexts of a session, of either side, have the same vector |
| SessionNetwork.RejectionChangesNothing | src/definitions/session.rs:642-658 | a rejected delivery changes nothing at all |
| SessionNetwork.GenuineNextIsAccepted | src/definitions/session.rs:642-658 | in every reachable state the next ciphertext a side lacks is still accepted when delivered |
| SessionNetwork.ExhaustionIsForever | src/definitions/session.rs:660-664 | after 2^32 - 1 messages nothing is ever emitted again and the counter stays |
| SessionNetwork.EmissionsAreCounted | src/definitions/session.rs:606-622 | the counter is the number of messages emitted |
| ReaderSession.SessionManager.BuildRequest | src/presentation/reader.rs:301-330 | a request moves only the reader's counter, and only when it is sealed |
| ReaderSession.SessionManager.DecryptResponse | src/presentation/reader.rs:332-346 | undecodable envelope, missing data, failed decryption, undecodable response, in the source's order; the counter moves exactly when the response opens, decoded or not |
| DeviceResponse.FirstRequestMeans | src/presentation/device.rs:1067-1069 | the request consulted is the first one for the document type |
| DeviceResponse.FilterElementsKeeps | src/presentation/device.rs:1076-1081 | a requested element stays as often as it was permitted, others go |
| DeviceResponse.FilterElementsFollows | src/presentation/device.rs:1076-1081 | the filter works element by element, so what it keeps stays in order |
| DeviceResponse.FilterNamespacesFollows | src/presentation/device.rs:1063-1089 | the filter goes namespace by namespace, in order |
| DeviceResponse.FilterOneNamespace | src/presentation/device.rs:1073-1085 | a namespace is kept when the request names it, with its own elements filtered once |
| DeviceResponse.FilterPermittedFollows | src/presentation/device.rs:1063-1089 | and document by document, in order |
| DeviceResponse.FilterOneDoc | src/presentation/device.rs:1066-1088 | a document is kept when some request names its type, with its namespaces filtered by the first that does |
| DeviceResponse.FilterIsIntersection | src/presentation/device.rs:1063-1089 | an element survives the filter if and only if it is permitted and the first request for its type asks for it |
| DeviceResponse.FilterTypes | src/presentation/device.rs:1063-1089 | the filtered types are the permitted ones that some request names |
| DeviceResponse.FilteredDiffer | src/presentation/device.rs:1063-1089 | no type, and no namespace of a type, is filtered twice |
| DeviceResponse.AnswerNamespace | src/presentation/device.rs:866-900 | a namespace's held elements are returned in order and its missing ones listed as errors; other namespaces are untouched |
| DeviceResponse.AnswerNamespaces | src/presentation/device.rs:860-901 | the maps answer every namespace of the document and name no other |
| DeviceResponse.PrepareResponse | src/presentation/device.rs:818-1004 | the prepared documents and the errors are, in order, the answers to the filtered types |
| DeviceResponse.AnswersAreCounted | src/presentation/device.rs:818-1004 | there are as many answers as filtered types |
| DeviceResponse.EachTypeIsAnswered | src/presentation/device.rs:818-1004 | each filtered type has a prepared document, or an error when no document can answer it |
| DeviceResponse.PreparedComesFrom | src/presentation/device.rs:985-996 | every prepared document answers a filtered type |
| DeviceResponse.ErrorComesFrom | src/presentation/device.rs:827-859 | every document error is for a filtered type that cannot be answered |
| DeviceResponse.AnswersDiffer | src/presentation/device.rs:818-1004 | no two answers are for the same type, so with the rows above each filtered type has exactly one prepared document or error |
| DeviceResponse.HeldFollows | src/presentation/device.rs:868-877 | one returned item for each held element, following the elements in order and multiplicity |
| DeviceResponse.OnlyPermittedAndRequested | src/presentation/device.rs:818-1004 | every returned item is held, for an element that is permitted and that the first request for its type asks for |
| DeviceResponse.ErrorExactlyWhenNotHeld | src/presentation/device.rs:865-901 | a filtered element is an error exactly when it is not held, and is returned when it is |
| DeviceResponse.ResponseIsExact | src/presentation/device.rs:818-1004 | for every permitted namespace of a prepared document the items returned are exactly the held ones among its permitted and requested elements, in their order and as often as permitted, and the errors exactly the others; nothing for a namespace the first request does not name |
| DeviceResponse.PermittedTypeIsAnswered | src/presentation/device.rs:818-1004 | every permitted type some request names has a document prepared from the device's own with the payload to sign, or an error when there is no document, signature algorithm or payload |
| DeviceResponse.PreparedInOrder | src/presentation/device.rs:818-1004 | prepared documents follow the order of the filtered types |
| DeviceSigning.SessionManager.HandleDecodedRequest | src/presentation/device.rs:466-505 | the reader's counter moves exactly when the request opens; a request that does not parse becomes an empty response to sign |
| DeviceSigning.SessionManager.HandleRequest | src/presentation/device.rs:514-527 | an envelope that does not decode changes nothing; otherwise the manager takes one receiving step |
| DeviceSigning.SessionManager.Prepare | src/presentation/device.rs:461-464 | the device is then signing the prepared documents of the filtered request |
| DeviceSigning.SessionManager.SubmitNextSignature | src/presentation/device.rs:561-602 | the step computes its specification: pop, attach, and on the last one finalize, encode and encrypt |
| DeviceSigning.SessionManager.RetrieveResponse | src/presentation/device.rs:617-629 | hands out the message once and waits for a request again |
| DeviceSigning.SignatureGoesToOffered | src/presentation/device.rs:740-762 | a signature is attached to the document whose payload was offered; prepared plus signed is conserved |
| DeviceSigning.StillSigning | src/presentation/device.rs:561-602 | fewer submissions than prepared documents leave the device signing, the last ones signed in turn |
| DeviceSigning.RunEndsExactly | src/presentation/device.rs:561-602 | exactly max(k, 1) submissions end the signing state; the response encoded has the documents signed before, then the prepared ones reversed, each with its signature, or no documents when there are none, with the errors and the status prepared; the message is it sealed under the next counter, or the error status |
| DeviceSigning.FinalDocuments | src/presentation/device.rs:764-776 | with nothing left to sign the response has documents exactly when some were signed, and those |
| DeviceSigning.RefusalIsAnswered | src/presentation/device.rs:466-602 | a refused request is answered after one submission by a response without documents that carries the status it was refused with |
| DeviceSigning.DataOrStatus | src/presentation/device.rs:572-596 | a ready message carries data or the encryption error, never both and never neither |
| DeviceSession.DocumentsKeptExactly | src/presentation/device.rs:461-629 | while signing, exactly which events keep every document, signed or not: all received data except a refused request, every submission but the last, retrievals, and a new preparation only of the same documents |
| DeviceSession.RefusalDiscards | src/presentation/device.rs:497-500 | a document to sign is gone after the reader's first ciphertext if its plaintext does not parse |
| DeviceSession.MessagesAreSound | src/presentation/device.rs:561-629 | over every run of requests, preparations, submissions and retrievals a waiting message carries data or the encryption error, and its data is sealed under the device's current counter |
| DeviceSession.StepRefines | src/presentation/device.rs:466-629 | every manager event is a network step or touches no counter |
| DeviceSession.ManagerRefinesNetwork | src/presentation/device.rs:466-629 | so every run of the manager against a reader is a run of a network that carries messages from sealing on: what either side accepted is a prefix of what the other sealed, and a waiting message's data is the device's latest sealed message |
| DeviceDelivery.TracedRun | src/presentation/device.rs:461-629 | the same with a network that carries a device message only once it was handed out: every such run is one of the above, everything handed out is a numbered message, and everything the reader accepted was handed out |
| DeviceDelivery.AcceptedIsHanded | src/presentation/device.rs:617-629 | the reader accepts nothing but its next number, and that only after it was handed out |
| DeviceDelivery.LostStep | src/presentation/device.rs:461-629 | exactly which events lose which message: a new preparation or a refused request while one waits, and a last signature whose session message does not encode after sealing |
| DeviceDelivery.LostIsForever | src/presentation/device.rs:461-629 | a lost message stays lost over every run, and the reader never accepts it or any later device message |
| DeviceDelivery.NextIsDelivered | src/presentation/device.rs:617-629 | if the reader's next message is not lost, retrieving it if it waits and delivering it makes the reader accept it |
| DeviceDelivery.DiscardsDecideDelivery | src/presentation/device.rs:461-629 | after any run from a new session, the reader can still be brought to accept the device's first n messages if and only if the run discarded none of them |
| DeviceDelivery.PreparingAgainDiscards | src/presentation/device.rs:461-464 | preparing, signing and preparing again without retrieving: the reader accepts nothing any more, whatever follows |
| Cbor.HeadRoundTrip | src/presentation/authentication/mdoc.rs:131-147 | a written head reads back as its major type, argument and length |
| Cbor.HeadIsShortest | src/presentation/authentication/mdoc.rs:131-147 | no head with the same argument is shorter |
| Cbor.EncodeIsItem | src/presentation/authentication/mdoc.rs:113-129 | what the encoder writes is one well-formed item of RFC 8949 |
| Cbor.EncodeRoundTrip | src/cbor.rs:10-30 | what the encoder writes reads back as the same item, whatever follows |
| Cbor.MajorTypes | src/cbor.rs:10-17 | each kind of item is written with its major type of section 3.1 of RFC 8949 |
| Cbor.DecodeSkips | src/cbor.rs:21-30 | reading an item takes exactly the bytes the well-formedness scan skips |
| Cbor.LeadingItem | src/cbor.rs:21-30 | the leading item of some bytes is read without looking at what follows it |
| DeviceAuthPayload.AppendByteStringHeader | src/presentation/authentication/mdoc.rs:131-147 | for every length the hand-written header is the shortest-form head of a byte string |
| DeviceAuthPayload.RawDeviceAuthenticationPayload | src/presentation/authentication/mdoc.rs:113-129 | the bytes are tag 24 over the four-item array with the transcript bytes unchanged |
| DeviceAuthPayload.LabelIsAscii | src/presentation/authentication/mdoc.rs:119 | the label spells DeviceAuthentication |
| DeviceAuthPayload.PayloadReadsBack | src/presentation/authentication/mdoc.rs:113-147 | for any transcript bytes the payload is a tag-24 byte string whose shortest header carries the true length, over a four-item array head; the four items after it are the label, the transcript byte for byte, the type and the namespaces if and only if no bytes follow the item the transcript starts with |
| DeviceAuthPayload.PayloadIsInjective | src/presentation/authentication/mdoc.rs:113-129 | of equal payloads, one from a transcript that is exactly one item: the other has the same transcript, type and namespaces if and only if its transcript is exactly one item too |
| DeviceAuthPayload.TrailingBytesAreAmbiguous | src/presentation/authentication/mdoc.rs:52-63 | with bytes after the transcript's item, and after the namespaces', all accepted by the decoder, two different inputs give one payload |
| DeviceAuthPayload.NonPreferredTranscript | src/presentation/authentication/mdoc.rs:155-157 | the library's own non-preferred transcript is one item for its decoder, which is more lenient than RFC 8949 |
| DeviceAuthPayload.RawEqualsTyped | src/presentation/authentication/mdoc.rs:33-45 | for any raw transcript bytes, the raw and the typed path give the same bytes if and only if those bytes are the encoder's own form |

## Left out

- Random numbers: the value -2^31 is not on the digest-id tape, because `DigestId::new` negates its argument (src/definitions/mso.rs:78-81); how `gen_range` turns raw words into 5 to 9 is not modelled, the tape holds typed values.
- Panics on length overflow in the streaming hash (src/definitions/session_crypto.rs:60-63, 91-94) are preconditions, not outcomes.
- Lane digests of messages of 2^61 bytes or more are specified with the wrapped length field only.
- SHA-384 and SHA-512 are a hash function with the right lengths.
- Authenticated encryption, Diffie-Hellman, ECDSA, COSE headers and signature verification are ideal or parameters; encrypting a message never reveals or forges anything.
- CBOR decoding of requests and responses, serde and ciborium are parameters; the re-encoding assertion in src/presentation/device.rs:568-571 is taken to hold.
- B-tree maps of inputs are sequences of entries in key order; their ordering itself is not used.
- WorkerBudget.BudgetConserved: memory orderings of the atomic counter are not modelled, every step is sequentially consistent; OS threads, the pool's construction and its panic machinery are one step each.
- The overflow of the batch's job count in `usize` (src/issuance/mdoc.rs:360-364) is not modelled, a list of jobs has a length.
- MdocAssemblyOrder.PathsAgreeExactly: when both paths fail on a plan made by hand, their errors are the same for results out of order or a plan numbered 0, 1, 2, ..., and can differ otherwise; on exactly which other inputs they differ is not stated.
- MdocBatchTheorems.BatchIsSequential: errors are not the same on every input, because the batch plans every item before it finishes the first; the lemma says exactly on which.
- Single-mdoc error precedence before planning is that of the batch validator; the public wrappers that only forward are not modelled.
- Mac0 device authentication differs from Sign1 only in the COSE builder and is the same parameter here.
- Memory erasure beyond the final contents of fields, scratch and output buffers.
- DeviceAuthPayload.PayloadReadsBack: does not say that the content splits into its four items for every accepted transcript, because it does not when bytes follow the transcript's item; the lemma says exactly when it does.
- DeviceAuthPayload.PayloadIsInjective: does not hold for every accepted transcript, for the same reason; `TrailingBytesAreAmbiguous` has the input.
- Which values the decoder can build from well-formed items is not modelled: transcripts are accepted if they start with an item, with two-byte simple values below 32 let through.
- X.509 chains, reader authentication, trust anchors, engagement codecs, namespace enums, age attestation and validity dates: they would only add easy members or foreign code.
- WebAssembly branches and the feature-gated fallbacks.
