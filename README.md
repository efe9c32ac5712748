# Proof-of-work blocks, modelled in Dafny

This project models the proof-of-work core of a small Rust blockchain
(`block.rs`). The model covers the following:

- **Blocks.** A `Block` holds a predecessor digest, a generation number, a
  difficulty, a data string and an optional proof.
- **Canonical string.** The text that is hashed is
  `<prev_hash as 64 lowercase hex digits>:<generation>:<difficulty>:<data>:<proof>`.
- **Validity.** A proof is valid when the SHA-256 digest of that string has
  its low `difficulty` bits zero.
- **Mining.** A valid proof is found either serially, from 0 upwards, or by
  `mine_range`. `mine_range` cuts a candidate range into chunks and hands one
  `MiningTask` per chunk to a pool of worker threads.

Files:

| file | module | contents |
|---|---|---|
| `types.dfy` | `Types` | `u8`, `u64`, `Option` |
| `arithmetic.dfy` | `Arithmetic` | powers of two and facts about Euclidean division |
| `encoding.dfy` | `Encoding` | hex and decimal rendering, the canonical string, a decoder and the round trip |
| `proof_of_work.dfy` | `ProofOfWork` | the byte/bit acceptance rule and its meaning as "divisible by `2^difficulty`" |
| `partition.dfy` | `Partition` | the chunk arithmetic of `mine_range` as written, what it covers, and the corrected partition |
| `blocks.dfy` | `Blocks` | the `Block` and `MiningTask` classes, the work queue's observable effect, and the test scenarios that do not depend on real digests |

Modelling choices:

- **SHA-256** is a fixed but arbitrary function `Sha256: string -> Digest`.
  Nothing proved depends on which function it is.
- **`Block` is a class.** Its four hashed fields are `const`, because the
  source never changes them after construction. `proof` is the only `var`.
- **Panics.**
  - An `unwrap` on a missing proof is a precondition. So is
    `generation + 1` overflowing in `next`.
  - Every other panic is an explicit outcome:
    `Outcome = Found(proof) | Panicked(reason) | NeverReturns`.
- **Integer overflow** follows Rust debug builds, where overflow panics:
  - `end - start + 1` in `mine_range` overflows for `start == 0`,
    `end == u64::MAX`.
  - `chunk_start + actual_chunk_size - 1` adds before it subtracts. So the
    last chunk overflows when it ends at `u64::MAX`, which happens exactly when
    `end == u64::MAX` and the range divides evenly.
  - `8 * (1 << difficulty)` in `mine_for_proof` overflows for
    `difficulty >= 61`.
  - `p += 1` in `mine_serial` overflows at `u64::MAX`.
- **The work queue** of `queue.rs` is replaced by `RunQueue`, which states
  what the queue does to `mine_range`, derived from the channel code:
  - `RunQueue` runs every enqueued task, and `queue.iter()` yields the first
    output sent. The source stops earlier: once `mine_range` returns, `Drop`
    calls `shutdown` (queue.rs:125-131), which discards the tasks nobody has
    picked up yet (queue.rs:111-114). With no workers, no task runs at all.
    Running those tasks anyway changes no result, because only the first
    output is used.
  - **No workers:** the only result sender is dropped when
    `WorkQueue::new` returns, so the iteration ends at once and `mine_range`
    panics with "No valid proof found".
  - **Workers, but no task succeeds:** the queue keeps its task sender
    (queue.rs:54), so the workers wait in `recv` (queue.rs:67) and keep their
    result senders alive. `queue.iter()` then blocks forever (`NeverReturns`).
    The panic "No valid proof found in the given range!" at block.rs:178 is
    reached only with zero workers.
  - **One worker:** tasks run in enqueue order, so the result is the least
    valid proof of the searched part.
  - **More workers:** any successful task may report first.

## Model

| member | source | states |
|---|---|---|
| `Encoding.ByteHex` | block.rs:44 | `{:02x}` gives exactly two lowercase hex digits, which read back as `b / 16` and `b % 16` |
| `Encoding.Hex` | block.rs:44 | The hex rendering has two characters per byte, all lowercase hex digits |
| `Encoding.HexAt` | block.rs:44 | Byte `i` of the predecessor hash is rendered at positions `2i` and `2i+1`, in order |
| `Encoding.UnHexHex` | block.rs:44 | Reading the hex rendering back gives the original bytes |
| `Encoding.HexOfZeros` | block.rs:23-44 | The all-zero hash of the genesis block is rendered as twice as many `'0'` characters |
| `Encoding.Decimal` | block.rs:46-53 | The `{}` rendering of a number is a non-empty digit string with no leading zero unless the number is 0 |
| `Encoding.DecimalRoundTrip` | block.rs:46-53 | Parsing the decimal rendering gives the number back |
| `Encoding.DecodeEncode` | block.rs:43-56 | For every 32-byte predecessor hash, decoding the canonical string gives back all five fields, even when the data contains `:` |
| `Encoding.EncodeInjective` | block.rs:43-56 | Two field tuples with the same canonical string are equal, so the string depends on the five values and determines them |
| `Encoding.EncodeLayout` | block.rs:44-53 | The canonical string starts with the 64 hex digits of the predecessor hash, byte by byte, followed by `:` |
| `Encoding.Encode` | block.rs:43-56 | Definition only, `format!("{}:{}:{}:{}:{}", ...)`; stated by `Encoding.DecodeEncode`, `Encoding.EncodeInjective` and `Encoding.EncodeLayout` |
| `Blocks.Block.HashStringForProof` | block.rs:43-56 | Definition only, the canonical string of the block's four hashed fields and `p`; stated by `Blocks.Block.HashStringForProofDecodes` |
| `Blocks.Block.HashString` | block.rs:58-62 | Definition only, `hash_string_for_proof` of the stored proof, which must be present; stated by `Blocks.Block.HashStringForProofDecodes` and `Blocks.MineGenesisDifficultyZero` |
| `Blocks.Block.HashForProof` | block.rs:64-77 | Definition only, SHA-256 of the canonical string; SHA-256 is uninterpreted, and the 32-byte result is the `Digest` type |
| `Blocks.Block.Hash` | block.rs:79-83 | Definition only, `hash_for_proof` of the stored proof, which must be present; used as the successor's `prevHash` by `Blocks.Block.Next` |
| `Blocks.Block.HashStringForProofDecodes` | block.rs:43-56 | A block's canonical string for `p` decodes to exactly its four hashed fields and `p` |
| `ProofOfWork.TrailingZeroRuleMeaning` | block.rs:95-113 | The byte/bit rule holds iff the digest's big-endian value is divisible by `2^difficulty` |
| `ProofOfWork.TrailingZeroRuleStep` | block.rs:99-104 | For `difficulty >= 8`, the rule is "last byte zero" plus the same rule on the remaining bytes with 8 fewer bits |
| `ProofOfWork.LastByteDecides` | block.rs:106-112 | Below 8 bits, divisibility by `2^difficulty` is decided by the last byte modulo `2^difficulty` |
| `Blocks.Block.Initial` | block.rs:21-29 | The genesis block has 32 zero bytes as predecessor, generation 0, the given difficulty, empty data and no proof |
| `Blocks.GenesisEncoding` | block.rs:21-56 | The genesis block's canonical string for proof `p` is 64 `'0'` characters followed by `:0:<d>::<p>` |
| `Blocks.Block.Next` | block.rs:32-40 | A successor has the predecessor's digest, generation + 1, the same difficulty, the given data and no proof; the predecessor must have a proof |
| `Blocks.Block.Clone` | block.rs:144 | The clone handed to the tasks has the same five fields |
| `Blocks.SameFieldsSameValidity` | block.rs:144 | Two blocks with the same hashed fields accept exactly the same proofs, so searching a clone is searching the block |
| `Blocks.Block.SetProof` | block.rs:85-87 | Sets `proof` to `Some(p)` without checking it; all other fields are immutable |
| `Blocks.Block.IsValidForProof` | block.rs:91-114 | The byte loop and the bit check index only inside the digest for every `u8` difficulty; the answer equals the byte/bit rule and `ValidFor(p)` |
| `Blocks.Block.IsValid` | block.rs:117-122 | False without a proof, otherwise the validity of the stored proof |
| `Blocks.Block.MineSerial` | block.rs:127-133 | Either stores and returns the least valid proof, or panics at `u64::MAX`, and then no `u64` is valid and the proof is unchanged |
| `Blocks.MiningTask.constructor` | block.rs:206-212 | A task holds the shared block and the inclusive range |
| `Blocks.MiningTask.Run` | block.rs:222-229 | Returns a proof iff the inclusive range holds a valid one, and then the least such |
| `Blocks.RunQueue` | block.rs:173-178 | No workers: panic. Otherwise a proof iff some task succeeds, taken as the least of a successful task; with one worker, from the first successful task |
| `Partition.ChunkCount` | block.rs:151-154 | The clamped count is at most both the requested count and the range length, and equals one of them |
| `Partition.BaseSize` | block.rs:156 | `chunk_size` is at least 1 |
| `Partition.Remainder` | block.rs:157 | `remainder` is less than the clamped count |
| `Partition.ChunkLength` | block.rs:160-165 | Definition only: the closed form `chunk_size + (1 if i < remainder)` of `actual_chunk_size`. Its ensures restate that as documentation. `Blocks.EnqueueChunks`' loop invariant shows that the source's decrementing `remainder` gives this length |
| `Partition.WrittenChunk` | block.rs:167-169 | Chunk `i` as written starts at or after `start`, is non-empty, and holds `actual_chunk_size` candidates; its position is stated by `Partition.WrittenChunkEnd` and `Partition.WrittenChunksCover` |
| `Partition.ChunkArithmetic` | block.rs:151-157 | The clamped count is in `[1, range]`, the base size is at least 1, and `count * size + remainder == range` |
| `Partition.WrittenChunksInside` | block.rs:159-170 | Every enqueued chunk is non-empty, lies inside `[start, end]`, and the first starts at `start` |
| `Partition.WrittenChunkEnd` | block.rs:159-169 | Where chunk `i` ends: never past `end - remainder` |
| `Partition.WrittenChunksCover` | block.rs:159-169 | A candidate is in some chunk iff it lies in `[start, end - remainder]` |
| `Partition.WrittenChunksTileIff` | block.rs:159-169 | The chunks tile `[start, end]` with no gap or overlap iff the remainder is 0 |
| `Partition.WrittenChunksOverlap` | block.rs:160-167 | Each chunk `i < remainder` overlaps chunk `i + 1` in one candidate |
| `Partition.WrittenChunksMissLastCandidate` | block.rs:159-169 | `[0, 2]` in two chunks is enqueued as `[0,1]`, `[1,1]`, and 2 is never searched |
| `Blocks.EnqueueChunks` | block.rs:159-171 | Task `i` starts at `start + i * chunk_size` and the first `remainder` tasks are one longer; the end computation overflows iff `end == u64::MAX` and the remainder is 0 |
| `Blocks.ChunkFits` | block.rs:167-169 | Each chunk's end is inside the range; it reaches the last candidate only for the last chunk with no remainder |
| `Blocks.TasksAreWrittenChunks` | block.rs:156-169 | With the sizes `mine_range` computes, the enqueued tasks are exactly `Partition.WrittenChunk` |
| `Blocks.LastChunkEndOverflowsExample` | block.rs:169 | `mine_range(w, 1, u64::MAX, 1)` reaches the overflowing chunk end |
| `Blocks.SearchedPrefix` | block.rs:159-178 | Some task holds a valid proof iff `[start, end - remainder]` does |
| `Blocks.FirstSuccessIsLeast` | block.rs:159-178 | The least proof of the first successful chunk is the least valid proof from `start` on |
| `Blocks.QueueOutcome` | block.rs:159-178 | The queue's result is a valid proof in range, found iff the searched prefix holds one, and the least with one worker |
| `Blocks.MineRangeOutcome` | block.rs:144-178 | As `QueueOutcome`, for the block whose clone the tasks search |
| `Blocks.EnqueueAndWait` | block.rs:159-178 | The enqueue loop and the wait: overflow iff the last chunk ends at `u64::MAX`; no-worker panic; otherwise a valid proof in range, found iff the searched prefix holds one, the least with one worker |
| `Blocks.Block.MineRange` | block.rs:142-179 | Each panic with its exact condition (end before start, range overflow, zero chunks, chunk-end overflow, no workers); a found proof is valid and in `[start, end]`; it is found iff `[start, end - remainder]` holds one; the least with one worker |
| `Partition.EvenChunksTile` | block.rs:159-169 | The corrected chunks, starting `min(i, remainder)` later, tile `[start, end]` exactly |
| `Partition.TilesPartition` | block.rs:159-169 | Tiling chunks are pairwise disjoint and their union is the range |
| `Blocks.EnqueueEvenChunks` | block.rs:159-171 | The corrected enqueue loop: task `i` starts at `start + i * size + min(i, remainder)` and never overflows |
| `Blocks.TasksAreEvenChunks` | block.rs:156-169 | The corrected tasks are exactly `Partition.EvenChunk` |
| `Blocks.TiledQueueOutcome` | block.rs:173-178 | Over tiling chunks the queue's proof is valid and in range, found iff the whole range holds one, the least with one worker |
| `Blocks.TiledSearchesAll` | block.rs:173-178 | Over tiling chunks some task holds a valid proof iff the range does |
| `Blocks.TiledFirstSuccessIsLeast` | block.rs:173-178 | Over tiling chunks the first successful chunk's least proof is the least of the range |
| `Blocks.EvenQueueOutcome` | block.rs:144-178 | As `TiledQueueOutcome`, for the block whose clone the tasks search |
| `Blocks.Block.MineRangeTiled` | block.rs:142-179 | The corrected `mine_range`: same panics except the chunk-end overflow; a proof is found iff the whole of `[start, end]` holds one |
| `Blocks.MineForProofEndFits` | block.rs:184 | `8 * (1 << d)` fits in a `u64` for `d <= 60` |
| `Blocks.Block.MineForProof` | block.rs:182-187 | Panics on overflow iff `difficulty > 60`, and otherwise only with zero workers. It never returns iff there are workers and `[0, 8 * 2^difficulty - remainder]` holds no valid proof. A found proof is valid and at most `8 * 2^difficulty`, found iff that prefix holds one, and the least with one worker |
| `Partition.MineForProofRemainder` | block.rs:182-186 | `mine_for_proof`'s chunks tile its range iff `difficulty <= 8`; for larger difficulties a tail is never searched |
| `Partition.Pow2PlusOneNotMultipleOf2345` | block.rs:184-185 | `2^k + 1` is never a multiple of 2345, because it is never a multiple of 7 |
| `Partition.MineForProofDifficulty24Tail` | block.rs:184-185 | At difficulty 24 the remainder is 1654 and the last candidate `2^27` is never searched |
| `Blocks.Block.Mine` | block.rs:189-191 | Stores the found proof, which is valid. On a panic or a hang nothing is stored. It has the same outcome guarantees as `mine_for_proof`: the overflow and no-worker panics, the hang, and the search |
| `Blocks.MineMatchesSerial` | block.rs:124-133 | `mine_serial` and `mine(1)` on blocks with the same fields agree whenever `mine` finds a proof. When `mine_serial` finds `p`, they agree iff `p` lies in the searched prefix; otherwise `mine` never returns |
| `Blocks.DifficultyZeroChunks` | block.rs:182-186 | At difficulty 0 the 9 chunks are `[i, i]` for `i` in `0 ..= 8`, with no remainder |
| `Blocks.MineDifficultyZeroGivesZero` | block_tests.rs:9-10 | At difficulty 0 every proof is valid, and the searched range `[0, 8]` is tiled exactly |
| `Blocks.MineDifficultyZeroWithOneWorker` | block_tests.rs:9-15 | Mining a difficulty-0 block with one worker stores proof 0 |
| `Blocks.MineGenesisDifficultyZero` | block_tests.rs:8-12 | The mined difficulty-0 genesis block renders as 64 `'0'` characters then `:0:0::0`, and is valid |
| `Blocks.SuccessorZeroString` | block_tests.rs:17-25 | The successor's canonical string is the predecessor digest in hex followed by `:1:0:hello I am string 1:0` |
| `Blocks.MineSuccessorDifficultyZero` | block_tests.rs:14-27 | The mined successor renders as the predecessor's hex digest then `:1:0:hello I am string 1:0`, and is valid |

## Findings

| source | as written | input that shows it | evidently intended | confidence | as-written member | corrected member |
|---|---|---|---|---|---|---|
| block.rs:167 | `chunk_start = start + i * chunk_size` ignores the extra candidate already given to each earlier chunk. Chunks `i < remainder` overlap their successor, and the last `remainder` candidates are in no chunk. | `mine_range(w, 0, 2, 2)` enqueues `[0,1]` and `[1,1]`, so 2 is never tried. `mine_for_proof` at difficulty 24 never tries the top 1654 of its 2^27 + 1 candidates. | Each chunk checks its own share of `[start, end]`, as the comments at block.rs:140 and block.rs:157 say, so the chunks tile the range. Chunk `i` starts `min(i, remainder)` later. | high; not executed | `Partition.WrittenChunksMissLastCandidate` | `Blocks.Block.MineRangeTiled` |
| block.rs:169 | `chunk_start + actual_chunk_size - 1` adds before it subtracts. The chunk ending at `u64::MAX` overflows and panics in debug builds. | `mine_range(w, 1, u64::MAX, 1)`: the single chunk is `[1, u64::MAX]`. | The end is computed as `chunk_start + (actual_chunk_size - 1)`, which stays within `end`. | medium, debug builds only; not executed | `Blocks.LastChunkEndOverflowsExample` | `Blocks.EnqueueEvenChunks` |

`Blocks.Block.MineForProof` and `Blocks.Block.Mine` call the as-written
`MineRange`, because they model what the source does. `MineRangeTiled` is
the same operation with both corrections applied. Its guarantee ("found iff
the whole range holds a valid proof") is the one the source's comments
promise.

## Left out

- `queue.rs` (thread spawning, channels, `shutdown`, `Drop`) is not modelled as code. `Blocks.RunQueue` gives its effect on `mine_range`: it runs every task and returns the first output sent. The source discards the tasks still queued when the first proof arrives; this changes no result. With several workers the choice among successful tasks is nondeterministic, and the interleaving of threads is not modelled.
- SHA-256 is not modelled; `Sha256` is an uninterpreted function. So `hash_for_proof` and `hash` (`Blocks.Block.HashForProof`, `Blocks.Block.Hash`) are defined, with no contract beyond their definitions.
- The test cases whose expected proofs come from real digests are not modelled: proofs 6087348 and 2149613 at difficulty 24, proof 529 at difficulty 8, and the tamper tests that `set_proof(0)` makes a block invalid. Each depends on concrete SHA-256 outputs.
- `main.rs` is not part of this model. It only builds blocks and prints their encodings.
- `Arc` sharing of the cloned block is left out. The tasks hold a reference to one immutable clone.
- `String` is modelled as a sequence of characters. The UTF-8 bytes that SHA-256 actually receives are not modelled; SHA-256 is uninterpreted, so this changes nothing proved.
- Overflow follows debug builds, where it panics. Release-build wrap-around is not modelled.
- Blocks.Block.Mine: agrees with `mine_serial`, as the comment at block.rs:124-126 says it should, only under two conditions: there is one worker, and the least valid proof lies in the searched prefix (`Blocks.MineMatchesSerial`). With several workers at difficulty 0, the nine chunks `[0,0]` ... `[8,8]` (`Blocks.DifficultyZeroChunks`) race, so `mine(2)` may store any of 0 ..= 8 while `mine_serial` stores 0. The model leaves which chunk wins open, so this divergence is allowed by the contracts rather than proved.
- Blocks.Block.Next: `generation + 1` overflowing at `u64::MAX` is a precondition, not a modelled panic.
- Blocks.Block.HashString: a missing proof is a precondition (the source's `unwrap` panic), and the function has no contract beyond its definition. Its shape is stated by `Blocks.Block.HashStringForProofDecodes`.
- Blocks.Block.MineRange: with several workers, the contract promises only that the proof is valid and lies in `[start, end]`. Timing decides which successful chunk reports first. `Blocks.RunQueue` states the stronger fact that the proof is the least of some successful chunk.
