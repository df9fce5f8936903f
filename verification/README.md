# Nulab block solver: a Dafny model and its proofs

Nulab's `apps` hold a Bitcoin block solver and the libraries it stands on. This project models the parts in which
something can go wrong quietly (the SHA-256 engine, the parallel nonce search, the Merkle root, the growable container
with the serializers above it, the hex text and the keyed file reader) and proves what they compute for all inputs,
all runs and all interleavings.

## How the model is laid out

| file | models | main result |
|---|---|---|
| `Bytes.dfy`, `Wrappers.dfy` | integers as byte strings, the optional result | round trips used throughout |
| `Fips180.dfy`, `Fips180Constants.dfy`, `Fips180Example.dfy` | SHA-256 as FIPS 180-4 defines it | padding is shortest and injective; the rounds are a bijection; the constants are the roots the standard names; the standard's example comes out |
| `Sha256Block.dfy` | `sha256_solve_block` on arrays | it is the compression of FIPS 180-4 section 6.2.2 |
| `Stream.dfy` | reset, update, begin, finish over any compression function | an admissible run of updates is one update on the concatenation |
| `StreamExact.dfy` | the same update, observed byte by byte | exactly which calls of `sha256_update` stream correctly, on contexts the code can hold |
| `Sha256Engine.dfy` | the mutable context and the digests | the digests are SHA-256 and double SHA-256 |
| `Int256.dfy` | 256-bit comparison, `bits` expansion | the test on byte arrays is the test on the numbers |
| `BlockHeader.dfy`, `FindNonce.dfy` | the 80-byte header and the midstate scan | the scan stops at the smallest qualifying nonce or proves there is none |
| `TaskPool.dfy` | `find_nonce_next_task` | the hand-outs partition the search grid |
| `Workers.dfy`, `Solver.dfy` | the workers, the mutex and the pool as a state machine | every report is a solution, and a run on a pool that empties ends and reports exactly when there is one |
| `Merkle.dfy`, `Commitment.dfy` | `bc_merkle_root` and what a block hash commits to | the in-place loop computes the tree's root; exactly what a root and a block hash determine |
| `Dca.dfy`, `Wire.dfy`, `Messages.dfy`, `Writers.dfy` | the container, the byte formats with readers as their specification, the writers | the writers emit a uniquely decodable format into a container that never moves when the room was reserved |
| `Hex.dfy`, `XorFile.dfy` | the two smaller inverse pairs | round trips; reads are slices of the decoded file |

Code that mutates is a class or a method over arrays, proved against a function; the laws are lemmas about the
functions. The function layer of the stream is generic in the compression function: the engine instantiates it with
the one of FIPS 180-4, and `StreamExact` instantiates it with a function that only records the blocks it is given, so
that a statement about recorded bytes is a statement about what is hashed (`StreamExact.UpdateRecords`).

Section numbers of FIPS 180-4 are given where its functions are defined: 4.1.2 (functions), 4.2.2 (constants), 5.1.1
(padding), 5.2.1 (parsing), 5.3.3 (initial value), 6.2.2 (computation).

## Where the code and a first expectation part

Each of these is settled by a lemma that says exactly when the expectation holds.

* `sha256_update` does not accept arbitrary chunks. Its first loop (apps/bclib/sha256.c:165-175) shortens `len`
  without leaving the loop or rebasing `i`. `StreamExact.StreamsExactly`: a call streams its bytes, or is refused for
  its length, if and only if the buffer is empty or the call does not overrun it, or the length overflows.
  `OverrunExample` shows 37 of 100 bytes dropped. Every call in the repository meets the condition. The loop's closing
  `assert()` has no argument and only compiles with assertions disabled, so the model has none.
* A pool whose last timestamp is 0xFFFFFFFF never empties, because its counter wraps (`TaskPool.PoolEmptiesExactly`).
  Mutual exclusion, progress and the soundness of reports are proved for every pool; termination and completeness for
  those that empty.
* `nonce_chunks` is an upper bound on the ranges of a timestamp, reached exactly when one range fewer would not cover
  the nonces (`TaskPool.RangesPerTimestamp`); all counts up to 65536 do, 65537 does not.
* A varint is the shortest form of its value except for 0xFFFF and 0xFFFFFFFF (`Wire.VarintIsShortestExactly`).
* The version payload fits the room asked for up front if and only if the 32-bit size of the request does not wrap
  (`Wire.PayloadFitsExactly`).
* The hex writers double a 32-bit index: they write the text if and only if the data is shorter than 2^31 bytes
  (`Hex.PrintsExactly`).
* A Merkle root does not fix the number of leaves. For every pair hash any two numbers of leaves share a root
  (`Merkle.LengthsShareRoot`), and a root over a known number of leaves fixes its list up to a collision
  (`Merkle.RootBinds`); for an idealised hash without collisions - none exists on 32-byte nodes - this is the
  equivalence `Merkle.RootFixesExactly`. Within one height a root fixes exactly the completion of its list
  (`Merkle.RootsAgreeExactly`), and it fixes the height unless a leaf is an inner node of the other tree
  (`Merkle.RootFixesHeight`). For blocks this is `Commitment.HashFixesHeight` and `Commitment.ListFitsExactly`.
* `bc_tx_txid` passes a `size_t` length as 32 bits, so from 2^32 bytes on it hashes a prefix. The hashed bytes
  determine a transaction, and hash and transaction count a block, if and only if the serializations are shorter than
  that (`Wire.HashedBytesBindExactly`, `Commitment.BindsExactly`).
* A hex writer returns if and only if the buffer is too small or the data shorter than 2^32 bytes
  (`Hex.ReturnsExactly`), and the target is written inside its 32 bytes if and only if the exponent is 3 to 32
  (`Int256.InTargetExactly`).

## Modelling choices

* Bytes are 8-bit vectors, words of the hash 32-bit vectors. `uint32_t`, `uint64_t` and `size_t` are naturals, with
  the wrap-around written out where the code can reach it.
* Memory behind a `const void *` message is a function from addresses to bytes, because outside its correct region
  `sha256_update` reads past the message.
* The container is the build with checked arithmetic (`NULIB_HAS_CKD_OPS`). The allocator is an object that answers
  its requests, in order, by a function of which nothing is known; a granted reallocation preserves the old prefix. So
  an operation can be said to fail exactly when it is refused. Failure handlers return in `Dca`. In `Writers` a false
  `ok` stands for the point where the default failure handler ends the process, so nothing is claimed about a
  half-written buffer.
* Sizes wrap at 2^64. Sums with the container's offset that wrap are excluded one request at a time
  (`Dca.Container.NoWrap`), and the writers ask that the buffer with what is written stays below 2^64.
* In `Workers` one step is one action of one worker: lock, read the pool, write it, unlock, test one nonce, report. A
  failing lock call is a step. Reporting ends the process, so no step follows it.
* In `XorFile` the stream may stop short at an error at any byte, call by call as a function of which nothing is known
  says; `ferror` is the field `failed`.

## Model

| member | source | states |
|---|---|---|
| Sha256Block.Bsig0IsFips | apps/bclib/sha256.c:31-33 | the masked-shift rotations compose to the function Sigma0 of FIPS 180-4 section 4.1.2, for every word |
| Sha256Block.Bsig1IsFips | apps/bclib/sha256.c:35-37 | likewise for Sigma1 |
| Sha256Block.Ssig0IsFips | apps/bclib/sha256.c:39-41 | likewise for sigma0, whose last term is a shift |
| Sha256Block.Ssig1IsFips | apps/bclib/sha256.c:43-45 | likewise for sigma1 |
| Sha256Block.LoadWordIsBigEndian | apps/bclib/sha256.c:64-67 | or-ing four shifted bytes is the big-endian number they spell |
| Sha256Block.FillSchedule | apps/bclib/sha256.c:60-72 | the 64-entry array is the message schedule of section 6.2.2 for the block |
| Sha256Block.RoundInCode | apps/bclib/sha256.c:85-96 | the eight-variable shuffle of the loop body is one round of section 6.2.2, whose sums are grouped differently |
| Sha256Block.RunRounds | apps/bclib/sha256.c:74-96 | the loop over the rotating variables is the 64-fold round over the schedule |
| Sha256Block.AddInto | apps/bclib/sha256.c:98-105 | the feed-forward adds word by word modulo 2^32 |
| Sha256Block.SolveBlock | apps/bclib/sha256.c:57-106 | in place, the hash becomes the FIPS compression of the old hash with the block |
| Fips180.RoundInverse | apps/bclib/sha256.c:86-95 | one round has a two-sided inverse, whatever the constant and schedule word |
| Fips180.RoundsBijective | apps/bclib/sha256.c:85-96 | for any block the rounds are a bijection on the eight-word state, before the feed-forward |
| Fips180.ZeroBitsAreLeast | apps/bclib/sha256.c:200-214 | the zero bits filled in are the least number that section 5.1.1 allows |
| Fips180.PadIsShortest | apps/bclib/sha256.c:194-231 | the padded length is the least multiple of 64 that is at least n + 9 |
| Fips180.PadInjective | apps/bclib/sha256.c:194-231 | different messages have different padded streams |
| Fips180.WordBytesRoundTrip | apps/bclib/sha256.c:236-240 | a result word written out is read back by the block loader |
| Fips180.LengthFieldSpells | apps/bclib/sha256.c:198-224 | a padded message is the message, the byte 0x80, zeros, and eight bytes that spell its length in bits, most significant first |
| Fips180Constants.PrimesInOrder | apps/bclib/sha256.h:17-29 | the list of 64 primes used below is the beginning of all primes, in order and without gaps |
| Fips180Constants.RoundConstantsAreCubeRoots | apps/bclib/sha256.h:17-29 | constant t is the first 32 fraction bits of the cube root of the t-th prime, stated in integers (section 4.2.2) |
| Fips180Constants.InitialValueIsSquareRoots | apps/bclib/sha256.h:31-34 | the eight initial words are the first 32 fraction bits of the square roots of the first eight primes (section 5.3.3) |
| Fips180Example.HashOfAbc | apps/bclib/sha256.h:57-66 | the hash of "abc" is the value of the standard's one-block example, derived word by word and round by round |
| Stream.UpdateIsPutAll | apps/bclib/sha256.c:149-192 | on an empty buffer, or within it, the three loops leave the whole context as byte-by-byte insertion does |
| Stream.OverflowChangesNothing | apps/bclib/sha256.c:151-160 | the error return happens exactly when the length would wrap, and leaves the context unchanged |
| Stream.UpdateRunIsPutAll | apps/bclib/sha256.c:149-192 | from any context, an admissible run of updates is byte-by-byte insertion of the concatenation |
| Stream.ChunkingIsInvisible | apps/bclib/sha256.c:149-192 | an admissible run from reset gives the context of one update on the concatenation: hash folded over whole blocks, index the total modulo 64, the buffer the tail |
| Stream.PutAllHolds | apps/bclib/sha256.c:183-189 | inserting bytes extends the message a context stands for by exactly those bytes |
| Stream.BeginIsUpdate | apps/bclib/sha256.c:257-270 | the byte loop of begin reaches the context of reset and one update, stale buffer bytes included |
| Stream.PadOneBlock | apps/bclib/sha256.c:206-228 | up to 55 buffered bytes, marker, zeros and length complete the one last block |
| Stream.PadTwoBlocks | apps/bclib/sha256.c:200-228 | from 56 to 63 buffered bytes, a marker block is followed by a block of zeros and length |
| Stream.FinishPads | apps/bclib/sha256.c:194-231 | finishing compresses exactly the padded message the context stands for, at every buffer index |
| StreamExact.StreamsExactly | apps/bclib/sha256.c:151-189 | on every context the code can hold with k bytes buffered, a call of `len` bytes continues the recorded message correctly or is refused if and only if k is 0, k + len is at most 64, or k + len reaches 2^32, where every such call overflows the length; `UpdateRecords` carries it to what is hashed |
| StreamExact.OverrunLosesOrOverwrites | apps/bclib/sha256.c:165-180 | an overrunning call either feeds too few bytes or overwrites the bytes buffered last by the following ones |
| StreamExact.UpdateRecords | apps/bclib/sha256.c:149-192 | for every compression function a call returns the code of the recording one and hashes exactly the blocks that one records, whether or not it streams |
| StreamExact.OverrunHashesOther | apps/bclib/sha256.c:165-189 | for every compression function, index above 0 and overrunning length without overflow, an accepted call exists after which the bytes hashed and waiting are not the message |
| StreamExact.OverrunExample | apps/bclib/sha256.c:165-175 | one byte absorbed and a call of 100: it succeeds and counts 101 bytes, but after 63 of them the rest is dropped |
| Sha256Engine.Context.CopyFrom | apps/bcapp/main_block_solver.c:41 | structure assignment copies the value and shares nothing |
| Sha256Engine.Context.Submit | apps/bclib/sha256.c:108-111 | the buffered block is compressed into the hash and the buffer is empty |
| Sha256Engine.Context.PushBlock | apps/bclib/sha256.c:118-123 | a block straight from the message is compressed and stays in the buffer as stale bytes |
| Sha256Engine.Context.Reset | apps/bclib/sha256.c:127-147 | the context becomes the one that stands for the empty message |
| Sha256Engine.Context.Resume | apps/bclib/sha256.c:162-175 | the first loop inserts its bytes, and its final counter and shortened length follow the recurrence that `StreamExact` analyses |
| Sha256Engine.Context.PushWhole | apps/bclib/sha256.c:177-180 | the second loop consumes all whole blocks and leaves the remainder |
| Sha256Engine.Context.PutRest | apps/bclib/sha256.c:182-189 | the third loop inserts the bytes between counter and bound |
| Sha256Engine.Context.Update | apps/bclib/sha256.c:149-192 | on the mutable context, code and value are those of the update function about which the chunking laws are proved |
| Sha256Engine.Context.Begin | apps/bclib/sha256.c:257-270 | on the mutable context, the value is that of the begin function |
| Sha256Engine.Context.StoreLength | apps/bclib/sha256.c:217-224 | the eight shifts store the 64-bit big-endian bit length and touch nothing below byte 56 |
| Sha256Engine.LengthBytes | apps/bclib/sha256.c:198-224 | the eight shifted bytes are the length field of section 5.1.1 |
| Sha256Engine.Context.Finish | apps/bclib/sha256.c:194-231 | on the mutable context, the value is that of the finish function, which pads as FIPS asks |
| Sha256Engine.Context.Result | apps/bclib/sha256.c:233-255 | the first 32 bytes become the big-endian hash words, the rest of the buffer is unchanged |
| Sha256Engine.FinishInto | apps/bclib/sha256.h:63-64 | finish and result on a context that stands for a message deliver that message's SHA-256 |
| Sha256Engine.Absorb | apps/bclib/sha256.h:61-62 | reset and one update make the context stand for the message |
| Sha256Engine.Digest | apps/bclib/sha256.h:57-66 | the digest is the SHA-256 of FIPS 180-4 for every length a 32-bit parameter can hold |
| Sha256Engine.DoubleDigest | apps/bclib/sha256.h:68-75 | the digest is SHA-256 applied twice |
| Int256.I256Compare | apps/bclib/bc_utils.h:21-36 | the loop returns the comparison whose meaning `CompareMeaning` gives |
| Int256.CompareMeaning | apps/bclib/bc_utils.h:21-36 | the sign is that of the difference of the two little-endian numbers, and a non-zero magnitude is one more than the count of equal leading bytes |
| Int256.CompareAntisymmetric | apps/bclib/bc_utils.h:21-36 | swapping the operands negates the result |
| Int256.I256Le | apps/bclib/bc_utils.h:38-40 | the test is "at most" in that order |
| Int256.ExpandBits | apps/bcapp/main_block_solver.c:278-283 | for exponents 3 to 32 the target written is mantissa times 256 to the exponent less 3 |
| Int256.InTargetExactly | apps/bcapp/main_block_solver.c:278-283 | the three bytes written, at indices computed in 32 bits, lie in the target if and only if the exponent is 3 to 32 |
| Int256.BitsSplit | apps/bcapp/main_block_solver.c:278-279 | exponent and mantissa are the top byte and the low three bytes of the 32 bits |
| Int256.LessOrEqualMeetsBits | apps/bcapp/main_block_solver.c:278-283 | against such a target the byte test holds if and only if the hash as a number is at most that product |
| BlockHeader.FieldsLie | apps/bclib/bc_types.h:28-35 | version, previous hash, Merkle root, timestamp, bits and nonce lie at bytes 0, 4, 36, 68, 72 and 76 of the 80, numbers least significant byte first |
| BlockHeader.SerializeInjective | apps/bclib/bc_types.h:28-35 | the 80 bytes determine every field, so no two candidates of the search are the same |
| BlockHeader.MeetsIsProofOfWork | apps/bcapp/main_block_solver.c:50 | the acceptance test compares the double hash, as a number, with the expanded `bits` |
| FindNonce.MidstateContinues | apps/bcapp/main_block_solver.c:35-42 | the context saved after 76 bytes, given any four nonce bytes, stands for the whole header with that nonce |
| FindNonce.HashFromMidstate | apps/bcapp/main_block_solver.c:41-48 | the hash from the copied midstate is the SHA-256 of the SHA-256 of the 80-byte header, and the midstate survives |
| FindNonce.TryNonce | apps/bcapp/main_block_solver.c:41-52 | one pass accepts exactly the headers that meet the target |
| FindNonce.Scan | apps/bcapp/main_block_solver.c:38-55 | the loop ends even at the top of the 32-bit range, having refuted every nonce before the one it stops at |
| FindNonce.Find | apps/bcapp/main_block_solver.c:29-56 | 1 with the smallest qualifying nonce of the inclusive range, 0 exactly when there is none; of the task only the nonce in its header changes |
| FindNonce.FindsOnce | apps/bcapp/main_block_solver.c:38-55 | that answer is the only one, whatever nonce the header came with |
| TaskPool.NonceTaskPool.NextTask | apps/bcapp/main_block_solver.c:58-89 | pool and result change as the hand-out function says, and the task filled in is a valid scan of a non-empty range |
| TaskPool.CallsFollowDrain | apps/bcapp/main_block_solver.c:58-89 | the k-th call hands out the k-th range of the drained pool; after the last one every call says empty |
| TaskPool.PoolEmptiesExactly | apps/bcapp/main_block_solver.c:68-75 | some call finds the pool empty if and only if its last timestamp is below 0xFFFFFFFF |
| TaskPool.DrainPartitions | apps/bcapp/main_block_solver.c:64-86 | on a pool that empties, every timestamp and nonce still due lies in a range, no range holds any other, and the ranges are strictly increasing, hence disjoint |
| TaskPool.TimestampCalls | apps/bcapp/main_block_solver.c:58-89 | on every pool, whatever its last timestamp, the k-th call on a timestamp hands out its k-th range, and after the last one the pool is at the next 32-bit timestamp and nonce 0 |
| TaskPool.RangesTile | apps/bcapp/main_block_solver.c:62-78 | on every pool the ranges of a timestamp are strictly increasing and together hold exactly the nonces left, 0 to 0xFFFFFFFF on a fresh timestamp |
| TaskPool.RangesRemain | apps/bcapp/main_block_solver.c:64-81 | no range handed out is empty |
| TaskPool.CountPerTimestamp | apps/bcapp/main_block_solver.c:62-78 | on a pool that empties each timestamp due contributes the same computed number of ranges, others none |
| TaskPool.RangesFromIsCeiling | apps/bcapp/main_block_solver.c:62-78 | that number is the remaining nonces divided by the range length, rounded up |
| TaskPool.RangesPerTimestamp | apps/bcapp/main_block_solver.c:62-78 | at most `nonce_chunks` ranges, and exactly that many if and only if one fewer would not cover the nonces |
| TaskPool.SmallCountsAreExact | apps/bcapp/main_block_solver.c:62-78 | exactly `nonce_chunks` ranges for every count from 1 to 65536 |
| TaskPool.LargeCountExample | apps/bcapp/main_block_solver.c:62-78 | 65537 chunks make fewer ranges |
| TaskPool.CountsInDrain | apps/bcapp/main_block_solver.c:58-89 | among the hand-outs of a pool every timestamp due in full has at most `nonce_chunks` ranges, exactly that many if and only if one fewer would not cover the nonces, and so for counts up to 65536 |
| TaskPool.RangeLength | apps/bcapp/main_block_solver.c:62-66 | a range starts at the pool's nonce and has 4294967295 / `nonce_chunks` + 1 nonces, unless they end before |
| Workers.RunKeeps | apps/bcapp/main_block_solver.c:163-229 | for every pool, every state of every interleaving keeps mutual exclusion, the serial hand-out order, and an owner or a full scan for each handed range |
| Workers.MutexExcludes | apps/bcapp/main_block_solver.c:205-226 | two workers are never in the mutex section together, whatever the pool |
| Workers.HandOutsAreSerial | apps/bcapp/main_block_solver.c:201-229 | under any interleaving the k-th hand-out is that of the k-th serial call, a prefix of the drain when the pool empties, each write being one call of the hand-out function on the current pool |
| Workers.ReportsAreHits | apps/bcapp/main_block_solver.c:170-172 | for every pool, what is reported meets the target and is the smallest such nonce of a range the serial hand-out gives; when the pool empties it lies in the search grid |
| Workers.StoppedMeansSearched | apps/bcapp/main_block_solver.c:166-168 | when all workers have stopped and one saw the pool empty, every candidate of the grid was hashed and none meets the target |
| Workers.ScanIsFind | apps/bcapp/main_block_solver.c:170-172 | a worker leaves its scan of a range with the answer `find_nonce` gives on that task: the nonce found, or none |
| Workers.StepDecreases | apps/bcapp/main_block_solver.c:163-176 | while the pool is one that empties, every step of any worker makes the remaining work smaller |
| Workers.RunsEnd | apps/bcapp/main_block_solver.c:163-176 | on a pool that empties no schedule runs forever; the bound depends only on the initial pool and the number of workers |
| Workers.CanMove | apps/bcapp/main_block_solver.c:201-229 | no deadlock, whatever the pool: until a report or until all have stopped, some worker can move without a lock call failing |
| Workers.StoppedEarlyExactly | apps/bcapp/main_block_solver.c:163-212 | in every run a worker has stopped without seeing the pool empty if and only if one of its lock calls has failed |
| Workers.MaximalRunDecides | apps/bcapp/main_block_solver.c:163-239 | a run that cannot go on, in which some worker had no lock call fail, has reported if and only if the grid holds a candidate that meets the target; on a pool that never empties it has reported |
| Solver.ReportSolves | apps/bcapp/main_block_solver.c:277-328 | as `main` sets the search up, for every header: a report gives the header a hash at most the number its `bits` encode, with the header's own timestamp unless that is 0xFFFFFFFF |
| Solver.SolverDecides | apps/bcapp/main_block_solver.c:277-328 | a run that cannot go on, in which some worker had no lock call fail, has reported if and only if some nonce solves the header; with timestamp 0xFFFFFFFF it has reported in any case |
| Solver.TargetIsUnique | apps/bcapp/main_block_solver.c:280-283 | the target is the only 32-byte string of its value |
| Solver.TwentyRanges | apps/bcapp/main_block_solver.c:293-302 | for every header the first twenty hand-outs cut the nonces of its timestamp into twenty consecutive ranges, and then the pool turns to the next timestamp |
| Merkle.HeightIsCeilLog2 | apps/bclib/bc_merkle_root.c:28-52 | the number of rounds is the ceiling of the base-2 logarithm of the number of leaves |
| Merkle.LevelWidth | apps/bclib/bc_merkle_root.c:28-52 | after l rounds node i exists if and only if i * 2^l is below the number of leaves: n / 2^l nodes, rounded up |
| Merkle.RootIsTopLevel | apps/bclib/bc_merkle_root.c:28-56 | after that many rounds the level is the root alone |
| Merkle.TreeIsLevel | apps/bclib/bc_merkle_root.c:28-52 | node i of level l is the recursive tree over the leaves it covers, the last node duplicated where a level is odd |
| Merkle.RootIsTree | apps/bclib/bc_merkle_root.c:28-56 | the level-by-level root is the top of that tree |
| Merkle.ReduceLevel | apps/bclib/bc_merkle_root.c:29-46 | one round leaves the next level in the output, even when input and output are the same array; scratch slots lie past the live nodes and all writes inside the array |
| Merkle.MerkleRoot | apps/bclib/bc_merkle_root.c:13-62 | no leaves is the error and changes nothing; otherwise slot 0 ends as the root after exactly `Height` rounds, in (n + 1) / 2 + 2 slots |
| Merkle.DuplicateTail | apps/bclib/bc_merkle_root.c:28-52 | with n = k * 2^j leaves, k odd and above one, repeating the last 2^j leaves keeps the root |
| Merkle.DuplicateAll | apps/bclib/bc_merkle_root.c:28-52 | at a power of two repeating all leaves hashes the old root with itself |
| Merkle.RootBinds | apps/bclib/bc_merkle_root.c:28-56 | equal roots over lists of one length mean equal lists, or two different pairs hashed on the way to them have one hash |
| Merkle.RootFixesExactly | apps/bclib/bc_merkle_root.c:28-56 | for an idealised pair hash without collisions, equal roots over n and over m leaves mean equal lists if and only if n = m; `RootBinds` and `LengthsShareRoot` are the halves for every pair hash |
| Merkle.LengthsShareRoot | apps/bclib/bc_merkle_root.c:28-56 | any two numbers of leaves share a root, whatever the pair hash |
| Merkle.ExpandKeeps | apps/bclib/bc_merkle_root.c:28-46 | completing a list to a power of two by repeating its last block wherever the blocks are odd in number changes neither the root nor the set of pairs hashed |
| Merkle.RootsAgreeExactly | apps/bclib/bc_merkle_root.c:28-56 | lists of one height have one root if and only if their completions agree, the one way without any assumption, the other unless two different pairs hashed have one hash |
| Merkle.RootFixesHeight | apps/bclib/bc_merkle_root.c:28-56 | lists of different heights have one root only if a leaf of the lower is an inner node of the higher, or two different pairs hashed have one hash |
| Commitment.HashPair | apps/bclib/bc_merkle_root.c:8-11 | the pair hash of the tree is the SHA-256 of the SHA-256 of the left and then the right 32 bytes |
| Commitment.HashHeader | apps/bclib/bc_utils.c:72-74 | a header is identified by the SHA-256 of the SHA-256 of its 80 bytes |
| Commitment.HashTx | apps/bclib/bc_utils.c:76-84 | it fails exactly when the allocator refuses a request; otherwise the identifier is the SHA-256 of the SHA-256 of the serialization cut to its length modulo 2^32, and the one of which the results below speak |
| Commitment.BlockHashBinds | apps/bclib/bc_utils.c:72-84 | blocks with one hash and one transaction count are equal in header and transactions when the serializations of one of them are shorter than 2^32 bytes, or two different byte strings hashed in identifying them have one double SHA-256 |
| Commitment.BindsExactly | apps/bclib/bc_utils.c:72-84 | hash and transaction count determine a block, up to such collisions, if and only if all its serializations are shorter than 2^32 bytes or it collides with itself |
| Commitment.Twin | apps/bclib/bc_utils.c:76-84 | a block with a longer transaction has a different block with the same header and the same hashed bytes, differing in a lock time |
| Commitment.HashFixesHeight | apps/bclib/bc_merkle_root.c:28-56 | blocks with one hash have one header and one tree height, unless a transaction of the lower tree hashes as the 64 bytes of two nodes paired in the higher, or identifying them collides |
| Commitment.ListFitsExactly | apps/bclib/bc_merkle_root.c:28-56 | within one height a list of transactions fits a block's header if and only if its completion is that of the block's own, up to collisions and serializations of 2^32 bytes |
| Commitment.CountsShareHeader | apps/bclib/bc_merkle_root.c:28-56 | any two transaction counts of one height do occur under one header |
| Commitment.HashAloneDoesNotBind | apps/bclib/bc_merkle_root.c:28-52 | in particular the header of k * 2^j transactions, k odd and above one, also fits the list with its last 2^j repeated; `ListFitsExactly` gives all such lists |
| Dca.Container.ReleaseAll | libs/nulib/src/dca.c:6-16 | the container is empty and owns nothing |
| Dca.Container.ReserveBytes | libs/nulib/src/dca.c:18-49 | asks the allocator once, and only for room that is not there; fails exactly when refused, changing nothing; never shrinks, keeps the contents; stays sound exactly when the request size did not wrap |
| Dca.Container.ConsumeBytes | libs/nulib/src/dca.c:51-81 | fails exactly when the length would reach 2^64 or the allocator, asked only if the bytes do not fit, refuses; otherwise appends exactly the bytes asked for at the old length and keeps the old ones |
| Dca.Container.Reserve | libs/nulib/include/nulib/dca.h:63-74 | fails exactly when the bytes overflow or the allocator refuses; otherwise as for bytes |
| Dca.Container.Extend | libs/nulib/include/nulib/dca.h:76-94 | fails exactly when the size overflows or the allocator, asked only for room that is not there, refuses; on success that many more elements fit without a new block |
| Dca.Container.Consume | libs/nulib/include/nulib/dca.h:96-107 | as for bytes, for whole elements; asks nothing where they fit |
| Dca.Container.Clean | libs/nulib/include/nulib/dca.h:109-115 | empties the contents and keeps the capacity |
| Dca.Container.Run | libs/nulib/include/nulib/dca.h:58-115 | over any run of the five operations none of whose requests wraps when the offset is added, an operation fails exactly for its size or a refusal, the contents evolve as a byte string, the length stays within the capacity, and whole elements stay whole |
| Dca.Container.ConsumeAll | libs/nulib/src/dca.c:51-81 | consumes that fit together all succeed in the same block |
| Dca.Container.ConsumeAfterExtend | libs/nulib/include/nulib/dca.h:76-107 | after an extend by k, which alone may be refused, any consumes of at most k elements in all succeed and never reallocate |
| Wire.VarintParses | apps/bclib/bc_utils.h:44-67 | a reader gets every 64-bit value back from the front of any stream |
| Wire.VarintPrefixFree | apps/bclib/bc_utils.h:44-67 | what follows a varint never changes what it says |
| Wire.VarintIsShortestExactly | apps/bclib/bc_utils.h:45-61 | no readable form is shorter, if and only if the value is neither 0xFFFF nor 0xFFFFFFFF |
| Wire.VarintLies | apps/bclib/bc_utils.h:44-67 | below 253 the byte itself, then the marker bytes 253, 254 and 255 before two, four and eight bytes of value, with the bounds 65535 and 4294967295 |
| Wire.TxParses | apps/bclib/bc_utils.h:132-208 | a reader gets any legacy transaction, and the rest, back from the front of any stream |
| Wire.TxBytesInjective | apps/bclib/bc_utils.h:201-208 | serialization is injective, and no serialized transaction is a proper prefix of another |
| Wire.InLies | apps/bclib/bc_utils.h:132-144 | identifier, output index, script size, script and sequence lie in this order, each where the sizes before it say |
| Wire.OutLies | apps/bclib/bc_utils.h:146-156 | amount, script size and script lie in this order |
| Wire.ConcatSplits | apps/bclib/bc_utils.h:162-164 | a list is written element by element in its order |
| Wire.TxLies | apps/bclib/bc_utils.h:201-208 | version first, lock time last, inputs before outputs, each list after its count |
| Wire.MarkerMeansNoInputs | apps/bclib/bc_utils.h:158-166 | byte 4 is 0x00 if and only if there are no inputs |
| Wire.SectionParses | apps/bclib/bc_utils.h:158-176 | a counted section of anything readable one by one is read back, and the rest, from the front of any stream |
| Wire.HashedBytesBindExactly | apps/bclib/bc_utils.c:76-84 | the bytes that are hashed determine a transaction if and only if its serialization is shorter than 2^32 bytes |
| Wire.LongExample | apps/bclib/bc_utils.h:146-156 | there are transactions of 2^32 bytes and more: one output with a script of 2^32 bytes makes one |
| Wire.VersionLength | apps/bclib/bc_message.h:65-77 | the payload has 84 bytes, the varint and the user agent |
| Wire.PayloadFitsExactly | apps/bclib/bc_message.h:62-64 | the size asked for up front covers the payload if and only if its 32-bit sum does not wrap |
| Messages.SignedParses | apps/bclib/bc_utils.h:81-103 | a two's complement integer is read back over its whole signed range |
| Messages.VersionParses | apps/bclib/bc_message.h:59-81 | a reader gets any version payload, each field in its place, back from the front of any stream |
| Messages.HeaderParses | apps/bclib/bc_message.h:37-47 | a reader gets any message header back from the front of any stream |
| Messages.HeaderLies | apps/bclib/bc_message.h:37-47 | magic, command, size and checksum lie at bytes 0, 4, 16 and 20 |
| Messages.NetAddrLies | apps/bclib/bc_message.h:49-57 | services, address and port lie at bytes 0, 8 and 24, the port least significant byte first as the code writes it |
| Messages.VersionLies | apps/bclib/bc_message.h:65-77 | each of the nine payload fields lies where its place in the list says |
| Writers.BufferConsume | libs/nulib/include/nulib/dca.h:96-107 | in a byte buffer the place returned starts right after the old contents, which are kept; the allocator is asked once, or not at all when the bytes fit, and its refusal is the only failure |
| Writers.AppendBytes | apps/bclib/bc_utils.h:105-112 | it fails exactly when the allocator refuses, and otherwise the buffer's contents grow by exactly these bytes; when they fit nothing is asked and the block stays |
| Writers.AppendInt | apps/bclib/bc_utils.h:69-103 | the same for an integer's little-endian bytes |
| Writers.AppendVarint | apps/bclib/bc_utils.h:44-67 | the same for the encoding that `Wire.VarintParses` inverts |
| Writers.AppendTxInput | apps/bclib/bc_utils.h:132-144 | the same for an input, its script written only when it has one |
| Writers.AppendTxOutput | apps/bclib/bc_utils.h:146-156 | the same for an output |
| Writers.AppendTxInputs | apps/bclib/bc_utils.h:158-166 | the same for the count and all inputs in order |
| Writers.AppendTxOutputs | apps/bclib/bc_utils.h:168-176 | the same for the count and all outputs in order |
| Writers.AppendTxLegacy | apps/bclib/bc_utils.h:201-208 | the contents grow by the serialization that `Wire.TxParses` inverts |
| Writers.AppendMessageHeader | apps/bclib/bc_message.h:37-47 | the contents grow by the 24 bytes that `Messages.HeaderParses` reads back; the error return is exactly a refused extend and leaves the buffer unchanged |
| Writers.AppendNetAddr | apps/bclib/bc_message.h:49-57 | the contents grow by the 26 address bytes; the error return leaves the buffer unchanged; with room for the padded structure nothing moves |
| Writers.AppendVersionPayload | apps/bclib/bc_message.h:59-81 | it fails exactly when a request is refused; a refused extend leaves the buffer unchanged; once it is granted and its size did not wrap, every writer after it succeeds in the same block, the nested extends included, and the contents grow by the bytes that `Messages.VersionParses` reads back |
| Hex.WriteForward | apps/bclib/bc_hex.c:37-64 | too small a buffer is untouched and 0 is returned; otherwise the printed form of the data, with the 32-bit doubled length |
| Hex.WriteBackward | apps/bclib/bc_hex.c:8-35 | for every length the buffer becomes what the forward writer makes of the reversed data |
| Hex.PrintsExactly | apps/bclib/bc_hex.c:18-34 | the terminated two-digit text and its length result if and only if the data is shorter than 2^31 bytes |
| Hex.ReturnsExactly | apps/bclib/bc_hex.c:10-30 | a writer returns if and only if the buffer is too small or the data is shorter than 2^32 bytes, because the 32-bit loop index wraps before a greater length |
| Hex.CharsParse | apps/bclib/bc_hex.h:19-22 | the two digits of a byte are read back as the byte |
| Hex.HexCharLowers | apps/bclib/bc_hex.h:11-17 | mapping a character to its value and back gives its lower case if and only if it is a hexadecimal digit |
| Hex.CharMapMeans | apps/bclib/bc_hex.h:11-17 | the table gives each of the 22 hexadecimal characters its digit value and everything else zero |
| Hex.TextSpells | apps/bclib/bc_hex.c:25-30 | the text, read in base 16, is the number whose big-endian bytes are printed, in lower-case digits |
| Hex.Hash32FromCspan | apps/bclib/bc_utils.h:233-238 | the 32 bytes are parsed last pair first |
| Hex.Hash32StrMake | apps/bclib/bc_utils.h:240-243 | the text of the reversed hash, terminated |
| Hex.ParsePrinted | apps/bclib/bc_utils.h:233-243 | every hash survives printing and parsing |
| Hex.HashTextSpells | apps/bclib/bc_utils.h:240-243 | the text of a hash is the hexadecimal form of the number it is compared as |
| Hex.PrintParsed | apps/bclib/bc_utils.h:233-243 | parsing and printing 64 characters lowers their case if and only if all are hexadecimal |
| XorFile.DecodedByte | apps/bcapp/main_block_dexor.c:70-75 | byte i of the decoded file is byte i of the stored one XORed by key byte i modulo 8 |
| XorFile.ZerosDecodeToKey | apps/bcapp/main_block_dexor.c:70-75 | eight zero bytes decode to the key |
| XorFile.DecodeTwice | apps/bcapp/main_block_dexor.c:70-75 | decoding twice is the identity |
| XorFile.BtcFile.Fread | apps/bcapp/main_block_dexor.c:65 | the bytes delivered are as many as asked for, there and given by the stream, whichever is least, and the error flag is set when the stream stops before the end of the file |
| XorFile.BtcFile.Read | apps/bcapp/main_block_dexor.c:61-78 | at any position a read succeeds exactly when file and stream hold all it asks for, and then delivers the matching slice of the decoded file; a short read advances the position and leaves its bytes undecoded |
| XorFile.KeyedIsSlice | apps/bcapp/main_block_dexor.c:62-74 | keying from the position's residue agrees with keying the whole file |
| XorFile.BtcFile.Replay | apps/bcapp/main_block_dexor.c:61-78 | over any run of seeks and reads the bytes delivered are those the reads point at in the decoded file; the run fails exactly when a read leaves the file or the stream does not deliver it |
| XorFile.PiecesTile | apps/bcapp/main_block_dexor.c:61-78 | for such a run without seeks, how the stretch is cut into reads does not show in the bytes |
| XorFile.BtcFile.ReadAll | apps/bcapp/main_block_dexor.c:80-93 | the position is restored; it fails exactly when the buffer's allocator refuses, reports an error exactly when the stream stops short, and otherwise the buffer grows by the whole decoded file |

## Left out

- Witness and segwit writing (apps/bclib/bc_utils.h:178-221): its item loop is bounded by the input count and it writes an extra count, so a claim of conformance to BIP 144 would be false.
- `sha256_cont_then_sha256_result` (apps/bclib/sha256.c:272-297): it rehashes 64 bytes of which 32 are the digest, so it is not the double hash; its only caller is in no build target.
- apps/bcapp/find_nonce.c: in no build target.
- The clients (`bc_client.c`, `main_client.c`, `tcp_client.c`): sockets and dispatch with little state.
- `bc_json.c` and `main_block_template_parser.c`: substring scanning.
- File loading, printing, option parsing and timing; the target given on the command line is never used, because the argument count that would select it is rejected first (apps/bcapp/main_block_solver.c:242-248).
- Thread creation and joining: the workers exist from the start; `exit` is a state without successors.
- The wait inside `mtx_lock`: a worker that cannot take the mutex simply does not move.
- Torn or reordered memory accesses outside the mutex: each worker's task, contexts and header copy are private to it.
- Block-file traversal and transaction peeking in `main_block_dexor.c`: mostly printing.
- Failures of `fseek`, `ftell`, `fgetpos` and `fsetpos`: the stream operations of `XorFile` other than reading always succeed.
- Byte order other than little-endian; structure padding beyond the sizes 24, 32 and 120 that the writers name.
- Element types of the container other than raw bytes: alignment and the address of the data area are not modelled, and a block given back to the allocator is simply no longer referenced.
- The growth fallback without checked arithmetic (libs/nulib/include/nulib/dca.h:90), which multiplies.
- Dca.Container.ConsumeBytes: the value of the bytes consumed is unspecified, as the source leaves it; the old bytes are kept.
- Hex.WriteForward: data of 2^32 bytes and more in a buffer large enough for its text is excluded, because the loop does not end on it (`Hex.ReturnsExactly`); `buf` and `dat` are distinct.
- Hex.WriteBackward: as for the forward writer.
- Int256.ExpandBits: exponents outside 3 to 32 are excluded; there the source writes outside the target (`Int256.InTargetExactly`).
- Solver.SolverDecides: for a header timestamp of 0xFFFFFFFF only that a run which cannot go on has reported, because the counter then wraps to timestamps other than the header's (`TaskPool.PoolEmptiesExactly`); what it reports is a solution (`Solver.ReportSolves`).
- Workers.RunsEnd: asks for a pool that empties; on another one a search without a hit goes on forever, as the program does.
- Workers.MaximalRunDecides: asks for a worker none of whose lock calls failed; without one the grid may not have been searched to its end.
