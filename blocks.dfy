/**
 * `Block` and `MiningTask` of block.rs: construction, the canonical string and
 * digest, the validity check, and the three ways of finding a proof (serial
 * search, range search over chunks, and `mine`).
 *
 * SHA-256 is an arbitrary but fixed function from strings to 32-byte digests;
 * nothing below depends on which function it is. The worker pool of queue.rs
 * is replaced by its observable effect on `mine_range` (see `RunQueue`).
 */
module Blocks {
  import opened Types
  import opened Arithmetic
  import opened Encoding
  import opened ProofOfWork
  import opened Partition

  /** SHA-256 of the string's bytes (the `sha2` crate), left uninterpreted. */
  const Sha256: string -> Digest

  /** `Hash::default()`: 32 zero bytes. */
  const ZeroHash: Digest := seq(32, _ => 0)

  /** The chunk count `mine_for_proof` asks for. */
  const MineChunks: u64 := 2345

  /** Why a call panics. */
  datatype Panic =
    | EndBeforeStart      // "Invalid range: end is smaller than start!"
    | DivideByZero        // `range / chunks` with `chunks == 0`
    | ArithmeticOverflow  // a `u64` addition, multiplication or shift overflows
    | NoProofFound        // "No valid proof found in the given range!"

  /** How a search ends: with a proof, with a panic, or not at all (it blocks forever). */
  datatype Outcome = Found(proof: u64) | Panicked(reason: Panic) | NeverReturns

  class Block {
    const prevHash: Digest
    const generation: u64
    const difficulty: u8
    const data: string
    var proof: Option<u64>

    /** `Block::initial`: the genesis block. */
    constructor Initial(difficulty: u8)
      ensures prevHash == ZeroHash && generation == 0 && this.difficulty == difficulty
      ensures data == "" && proof == None
    {
      prevHash := ZeroHash;
      generation := 0;
      this.difficulty := difficulty;
      data := "";
      proof := None;
    }

    /**
     * `Block::next`: a block that can follow `previous`. `Self::hash` unwraps
     * `previous.proof`, and `generation + 1` must stay within `u64`.
     */
    constructor Next(previous: Block, data: string)
      requires previous.proof.Some?
      requires previous.generation < U64_MAX
      ensures prevHash == previous.Hash() && generation == previous.generation + 1
      ensures difficulty == previous.difficulty && this.data == data && proof == None
    {
      prevHash := previous.Hash();
      generation := previous.generation + 1;
      difficulty := previous.difficulty;
      this.data := data;
      proof := None;
    }

    /** `#[derive(Clone)]`: a new block with the same five fields. */
    constructor Clone(other: Block)
      ensures prevHash == other.prevHash && generation == other.generation && difficulty == other.difficulty
      ensures data == other.data && proof == other.proof
    {
      prevHash := other.prevHash;
      generation := other.generation;
      difficulty := other.difficulty;
      data := other.data;
      proof := other.proof;
    }

    /** `hash_string_for_proof`: the canonical string of the four hashed fields and `p`. */
    function HashStringForProof(p: u64): string
    {
      Encode(Fields(prevHash, generation, difficulty, data, p))
    }

    /**
     * The canonical string is decoded back to exactly the block's four hashed
     * fields and `p`: it depends on those five values only, and different
     * values give different strings.
     */
    lemma HashStringForProofDecodes(p: u64)
      ensures Decode(HashStringForProof(p)) == Some(Fields(prevHash, generation, difficulty, data, p))
    {
      DecodeEncode(Fields(prevHash, generation, difficulty, data, p));
    }

    /** `hash_string`: panics (unwrap) when there is no proof. */
    function HashString(): string
      reads this
      requires proof.Some?
    {
      HashStringForProof(proof.value)
    }

    /** `hash_for_proof`: SHA-256 of the canonical string. */
    function HashForProof(p: u64): Digest
    {
      Sha256(HashStringForProof(p))
    }

    /** `hash`: panics (unwrap) when there is no proof. */
    function Hash(): Digest
      reads this
      requires proof.Some?
    {
      HashForProof(proof.value)
    }

    /** The block with proof `p` meets its difficulty: the low `difficulty` bits of its digest are zero. */
    predicate ValidFor(p: u64)
    {
      LowBitsZero(HashForProof(p), difficulty)
    }

    /** `set_proof`: stores the proof without checking it. */
    method SetProof(p: u64)
      modifies this
      ensures proof == Some(p)
    {
      proof := Some(p);
    }

    /**
     * `is_valid_for_proof`: the byte-then-bit loop of block.rs. Its indexing
     * stays inside the digest for every `u8` difficulty, and its answer is
     * "the low `difficulty` bits of the digest are zero".
     */
    method IsValidForProof(p: u64) returns (ok: bool)
      ensures ok == TrailingZeroRule(HashForProof(p), difficulty)
      ensures ok == ValidFor(p)
    {
      var hash := HashForProof(p);
      TrailingZeroRuleMeaning(hash, difficulty);
      var nBytes := difficulty / 8;
      var nBits := difficulty % 8;
      var i := 0;
      while i < nBytes
        invariant 0 <= i <= nBytes
        invariant forall j :: |hash| - i <= j < |hash| ==> hash[j] == 0
      {
        if hash[|hash| - 1 - i] != 0 {
          return false;
        }
        i := i + 1;
      }
      if nBits > 0 {
        var byte := hash[|hash| - 1 - nBytes];
        if byte % Pow2(nBits) != 0 {
          return false;
        }
      }
      return true;
    }

    /** `is_valid`: false without a proof, otherwise the check of that proof. */
    method IsValid() returns (ok: bool)
      ensures ok <==> proof.Some? && ValidFor(proof.value)
    {
      if proof.None? {
        return false;
      }
      ok := IsValidForProof(proof.value);
    }

    /**
     * `mine_serial`: tries 0, 1, 2, ... and stores the first valid proof.
     * When no `u64` is valid, `p += 1` overflows at `u64::MAX` and the call
     * panics without storing anything.
     */
    method MineSerial() returns (r: Outcome)
      modifies this
      ensures r.Found? || r == Panicked(ArithmeticOverflow)
      ensures r.Found? ==> proof == Some(r.proof) && ValidFor(r.proof)
      ensures r.Found? ==> forall q: u64 :: q < r.proof ==> !ValidFor(q)
      ensures !r.Found? ==> proof == old(proof) && forall q: u64 :: !ValidFor(q)
    {
      var p: u64 := 0;
      var ok := IsValidForProof(p);
      while !ok
        invariant proof == old(proof)
        invariant ok == ValidFor(p)
        invariant forall q: u64 :: q < p ==> !ValidFor(q)
        decreases U64_MAX - p
      {
        if p == U64_MAX {
          forall q: u64
            ensures !ValidFor(q)
          {
            assert q < p || q == p;
          }
          return Panicked(ArithmeticOverflow);
        }
        p := p + 1;
        ok := IsValidForProof(p);
      }
      proof := Some(p);
      return Found(p);
    }

    /**
     * `mine_range`: cuts `[start, end]` into chunks exactly as block.rs does,
     * runs one `MiningTask` per chunk on `workers` threads and returns the
     * first proof a task reports. Only `[start, end - remainder]` is searched
     * (see `Partition.WrittenChunksCover`). With no worker the result channel
     * is already closed and the call panics; with workers but no valid proof
     * in the searched part, the task channel stays open and the call waits
     * forever. With one worker the tasks run in order, so the proof is the
     * least valid one of the range.
     */
    method MineRange(workers: nat, start: u64, end: u64, chunks: u64) returns (r: Outcome)
      ensures r == Panicked(EndBeforeStart) <==> end < start
      ensures r == Panicked(ArithmeticOverflow) <==>
        start <= end && (end - start + 1 > U64_MAX || (chunks > 0 && LastChunkEndOverflows(start, end, chunks)))
      ensures r == Panicked(DivideByZero) <==> RangeFits(start, end) && chunks == 0
      ensures r == Panicked(NoProofFound) <==>
        RangeFits(start, end) && chunks > 0 && !LastChunkEndOverflows(start, end, chunks) && workers == 0
      ensures r.Found? ==> start <= r.proof <= end && ValidFor(r.proof)
      ensures RangeFits(start, end) && chunks > 0 && !LastChunkEndOverflows(start, end, chunks) && workers > 0 ==>
        (r.Found? <==> HasValid(this, start, end - Remainder(start, end, chunks)))
      ensures r.Found? && workers == 1 ==> forall q: u64 :: start <= q < r.proof ==> !ValidFor(q)
    {
      var block := new Block.Clone(this);
      if end < start {
        return Panicked(EndBeforeStart);
      }
      if end - start + 1 > U64_MAX {
        return Panicked(ArithmeticOverflow);
      }
      var range: u64 := end - start + 1;
      var count := chunks;
      if count > range {
        count := range;
      }
      if count == 0 {
        return Panicked(DivideByZero);
      }
      var chunkSize := range / count;
      var remainder := range % count;
      assert count == ChunkCount(start, end, chunks) && chunkSize == BaseSize(start, end, chunks) &&
             remainder == Remainder(start, end, chunks) by {
        ChunkArithmetic(start, end, chunks);
      }
      r := EnqueueAndWait(this, block, workers, start, end, chunks, count, chunkSize, remainder);
    }

    /**
     * `mine_range` with the chunk start corrected: chunk `i` starts after the
     * `min(i, remainder)` extra candidates handed to the chunks before it,
     * and its end is computed as `chunk_start + (actual_chunk_size - 1)`.
     * The chunks then tile `[start, end]`, so the whole range is searched.
     */
    method MineRangeTiled(workers: nat, start: u64, end: u64, chunks: u64) returns (r: Outcome)
      ensures r == Panicked(EndBeforeStart) <==> end < start
      ensures r == Panicked(ArithmeticOverflow) <==> start <= end && end - start + 1 > U64_MAX
      ensures r == Panicked(DivideByZero) <==> RangeFits(start, end) && chunks == 0
      ensures r == Panicked(NoProofFound) <==> RangeFits(start, end) && chunks > 0 && workers == 0
      ensures r.Found? ==> start <= r.proof <= end && ValidFor(r.proof)
      ensures RangeFits(start, end) && chunks > 0 && workers > 0 ==> (r.Found? <==> HasValid(this, start, end))
      ensures r.Found? && workers == 1 ==> forall q: u64 :: start <= q < r.proof ==> !ValidFor(q)
    {
      var block := new Block.Clone(this);
      if end < start {
        return Panicked(EndBeforeStart);
      }
      if end - start + 1 > U64_MAX {
        return Panicked(ArithmeticOverflow);
      }
      var range: u64 := end - start + 1;
      var count := chunks;
      if count > range {
        count := range;
      }
      if count == 0 {
        return Panicked(DivideByZero);
      }
      var chunkSize := range / count;
      var remainder := range % count;
      assert count == ChunkCount(start, end, chunks) && chunkSize == BaseSize(start, end, chunks) &&
             remainder == Remainder(start, end, chunks) && 1 <= chunkSize && remainder < count &&
             count * chunkSize + remainder == range by {
        ChunkArithmetic(start, end, chunks);
      }
      var tasks := EnqueueEvenChunks(block, start, end, count, chunkSize, remainder);
      r := RunQueue(workers, tasks);
      EvenQueueOutcome(this, block, start, end, chunks, workers, tasks, r);
    }

    /**
     * `mine_for_proof`: searches `[0, 8 * 2^difficulty]` in 2345 chunks.
     * `1 << difficulty` overflows for `difficulty >= 64` and the product by 8
     * for `difficulty >= 61`; both panic.
     */
    method MineForProof(workers: nat) returns (r: Outcome)
      ensures r == Panicked(ArithmeticOverflow) <==> difficulty > 60
      ensures r == Panicked(NoProofFound) <==> difficulty <= 60 && workers == 0
      ensures r.Panicked? ==> difficulty > 60 || workers == 0
      ensures r == NeverReturns <==>
        difficulty <= 60 && workers > 0 && !HasValid(this, 0, 8 * Pow2(difficulty) - Remainder(0, 8 * Pow2(difficulty), MineChunks))
      ensures r.Found? ==> r.proof <= 8 * Pow2(difficulty) && ValidFor(r.proof)
      ensures difficulty <= 60 && workers > 0 ==>
        (r.Found? <==> HasValid(this, 0, 8 * Pow2(difficulty) - Remainder(0, 8 * Pow2(difficulty), MineChunks)))
      ensures r.Found? && workers == 1 ==> forall q: u64 :: q < r.proof ==> !ValidFor(q)
    {
      if difficulty >= 64 {
        return Panicked(ArithmeticOverflow);
      }
      if difficulty > 60 {
        return Panicked(ArithmeticOverflow);
      }
      MineForProofEndFits(difficulty);
      var rangeEnd: u64 := 8 * Pow2(difficulty);
      assert RangeFits(0, rangeEnd) && !LastChunkEndOverflows(0, rangeEnd, MineChunks);
      r := MineRange(workers, 0, rangeEnd, MineChunks);
      assert r.Panicked? ==> r.reason == NoProofFound;
    }

    /** `mine`: stores the proof `mine_for_proof` finds; on a panic nothing is stored. */
    method Mine(workers: nat) returns (r: Outcome)
      modifies this
      ensures r == Panicked(ArithmeticOverflow) <==> difficulty > 60
      ensures r == Panicked(NoProofFound) <==> difficulty <= 60 && workers == 0
      ensures r.Panicked? ==> difficulty > 60 || workers == 0
      ensures r == NeverReturns <==>
        difficulty <= 60 && workers > 0 && !HasValid(this, 0, 8 * Pow2(difficulty) - Remainder(0, 8 * Pow2(difficulty), MineChunks))
      ensures r.Found? ==> proof == Some(r.proof) && ValidFor(r.proof) && r.proof <= 8 * Pow2(difficulty)
      ensures difficulty <= 60 && workers > 0 ==>
        (r.Found? <==> HasValid(this, 0, 8 * Pow2(difficulty) - Remainder(0, 8 * Pow2(difficulty), MineChunks)))
      ensures r.Found? && workers == 1 ==> forall q: u64 :: q < r.proof ==> !ValidFor(q)
      ensures !r.Found? ==> proof == old(proof)
    {
      r := MineForProof(workers);
      if r.Found? {
        proof := Some(r.proof);
      }
    }
  }

  /** `MiningTask`: a shared, never-mutated block and an inclusive range of candidate proofs. */
  class MiningTask {
    const block: Block
    const start: u64
    const end: u64

    /** `MiningTask::new`. */
    constructor (block: Block, start: u64, end: u64)
      ensures this.block == block && this.start == start && this.end == end
    {
      this.block := block;
      this.start := start;
      this.end := end;
    }

    /** `run`: the least valid proof of `[start, end]`, or `None` when there is none. */
    method Run() returns (r: Option<u64>)
      ensures r.Some? <==> HasValid(block, start, end)
      ensures r.Some? ==> LeastValid(block, start, end, r.value)
    {
      var p: int := start;
      while p <= end
        invariant start <= p <= end + 1 || p == start
        invariant forall q: u64 :: start <= q < p ==> !block.ValidFor(q)
      {
        var ok := block.IsValidForProof(p);
        if ok {
          return Some(p);
        }
        p := p + 1;
      }
      return None;
    }
  }

  /** `end - start + 1` neither underflows nor overflows a `u64`. */
  predicate RangeFits(start: int, end: int)
  {
    start <= end && end - start + 1 <= U64_MAX
  }

  /**
   * The last chunk of `mine_range` ends at `u64::MAX`, so computing its end
   * as `chunk_start + actual_chunk_size - 1` overflows.
   */
  predicate LastChunkEndOverflows(start: int, end: int, chunks: nat)
    requires start <= end && chunks > 0
  {
    end == U64_MAX && Remainder(start, end, chunks) == 0
  }

  /**
   * A concrete case: `mine_range(w, 1, u64::MAX, 1)` has a range that fits,
   * one chunk and no remainder, and that chunk ends at `u64::MAX`.
   */
  lemma LastChunkEndOverflowsExample()
    ensures RangeFits(1, U64_MAX) && LastChunkEndOverflows(1, U64_MAX, 1)
    ensures WrittenChunk(1, U64_MAX, 1, 0) == Chunk(1, U64_MAX)
  {
    assert ChunkCount(1, U64_MAX, 1) == 1;
  }

  /** Some proof in `[lo, hi]` is valid for `block`. */
  predicate HasValid(block: Block, lo: int, hi: int)
  {
    exists p: u64 :: lo <= p <= hi && block.ValidFor(p)
  }

  /** `p` is the least valid proof in `[lo, hi]`. */
  predicate LeastValid(block: Block, lo: int, hi: int, p: int)
  {
    lo <= p <= hi && 0 <= p <= U64_MAX && block.ValidFor(p) &&
    forall q: u64 :: lo <= q < p ==> !block.ValidFor(q)
  }

  /**
   * The work queue of queue.rs as `mine_range` uses it: every task is run by
   * some worker and `queue.iter()` yields the first output sent. With no
   * worker the output channel is closed from the start; with workers but no
   * output the task channel stays open and the iteration never ends; with
   * one worker the tasks run in the order they were enqueued; with more,
   * any successful task may report first.
   */
  method RunQueue(workers: nat, tasks: seq<MiningTask>) returns (r: Outcome)
    ensures workers == 0 <==> r == Panicked(NoProofFound)
    ensures r.Found? || r == Panicked(NoProofFound) || r == NeverReturns
    ensures workers > 0 ==> (r.Found? <==> exists j :: 0 <= j < |tasks| && HasValid(tasks[j].block, tasks[j].start, tasks[j].end))
    ensures r.Found? ==>
      exists k :: (0 <= k < |tasks| && LeastValid(tasks[k].block, tasks[k].start, tasks[k].end, r.proof) &&
                   (workers == 1 ==> forall j :: 0 <= j < k ==> !HasValid(tasks[j].block, tasks[j].start, tasks[j].end)))
  {
    if workers == 0 {
      return Panicked(NoProofFound);
    }
    var outputs: seq<Option<u64>> := [];
    var i := 0;
    while i < |tasks|
      invariant i <= |tasks| && |outputs| == i
      invariant forall j :: 0 <= j < i ==>
        (outputs[j].Some? <==> HasValid(tasks[j].block, tasks[j].start, tasks[j].end)) &&
        (outputs[j].Some? ==> LeastValid(tasks[j].block, tasks[j].start, tasks[j].end, outputs[j].value))
    {
      var o := tasks[i].Run();
      outputs := outputs + [o];
      i := i + 1;
    }
    var k := 0;
    while k < |outputs| && outputs[k].None?
      invariant k <= |outputs|
      invariant forall j :: 0 <= j < k ==> outputs[j].None?
    {
      k := k + 1;
    }
    if k == |outputs| {
      return NeverReturns;
    }
    if workers > 1 {
      k :| 0 <= k < |outputs| && outputs[k].Some?;
    }
    return Found(outputs[k].value);
  }


  /**
   * The second half of `mine_range`: enqueue one task per chunk on the clone
   * `block` of `self`, then wait for the first proof a task sends.
   */
  method EnqueueAndWait(self: Block, block: Block, workers: nat, start: u64, end: u64, chunks: u64,
                        count: u64, chunkSize: u64, remainder: u64) returns (r: Outcome)
    requires SameFields(self, block)
    requires start <= end && chunks > 0
    requires count == ChunkCount(start, end, chunks) && chunkSize == BaseSize(start, end, chunks)
    requires remainder == Remainder(start, end, chunks)
    ensures r.Found? || r == Panicked(ArithmeticOverflow) || r == Panicked(NoProofFound) || r == NeverReturns
    ensures r == Panicked(ArithmeticOverflow) <==> LastChunkEndOverflows(start, end, chunks)
    ensures r == Panicked(NoProofFound) <==> !LastChunkEndOverflows(start, end, chunks) && workers == 0
    ensures r.Found? ==> start <= r.proof <= end && self.ValidFor(r.proof)
    ensures !LastChunkEndOverflows(start, end, chunks) && workers > 0 ==>
      (r.Found? <==> HasValid(self, start, end - Remainder(start, end, chunks)))
    ensures r.Found? && workers == 1 ==> forall q: u64 :: start <= q < r.proof ==> !self.ValidFor(q)
  {
    ChunkArithmetic(start, end, chunks);
    var tasks, overflow := EnqueueChunks(block, start, end, count, chunkSize, remainder);
    if overflow {
      return Panicked(ArithmeticOverflow);
    }
    r := RunQueue(workers, tasks);
    MineRangeOutcome(self, block, start, end, chunks, workers, tasks, r);
  }

  /**
   * The enqueuing loop of `mine_range`: task `i` covers `chunkSize`
   * candidates from `start + i * chunkSize`, one more for the first `extra`
   * tasks, where `count * chunkSize + extra` is the size of the range.
   * `chunk_start + actual_chunk_size - 1` adds before it subtracts, so the
   * chunk that ends at `u64::MAX` overflows; that is the last chunk, and only
   * when `end == u64::MAX` and there is no remainder.
   */
  method EnqueueChunks(block: Block, start: u64, end: u64, count: u64, chunkSize: u64, extra: u64)
    returns (tasks: seq<MiningTask>, overflow: bool)
    requires start <= end && 1 <= count && 1 <= chunkSize && extra < count
    requires count * chunkSize + extra == end - start + 1
    ensures overflow <==> end == U64_MAX && extra == 0
    ensures !overflow ==> |tasks| == count
    ensures !overflow ==> forall j :: 0 <= j < |tasks| ==>
      tasks[j].block == block &&
      tasks[j].start == start + j * chunkSize &&
      tasks[j].end == tasks[j].start + (if j < extra then chunkSize + 1 else chunkSize) - 1
  {
    var remainder := extra;
    tasks := [];
    var i: u64 := 0;
    while i < count
      invariant i <= count && |tasks| == i as int
      invariant remainder == if i < extra then extra - i else 0
      invariant i == count ==> !(end == U64_MAX && extra == 0)
      invariant forall j :: 0 <= j < i ==>
        tasks[j].block == block &&
        tasks[j].start == start + j * chunkSize &&
        tasks[j].end == tasks[j].start + (if j < extra then chunkSize + 1 else chunkSize) - 1
    {
      var actualChunkSize;
      if remainder > 0 {
        remainder := remainder - 1;
        actualChunkSize := chunkSize + 1;
      } else {
        actualChunkSize := chunkSize;
      }
      ChunkFits(i, count, chunkSize, extra);
      var chunkStart: u64 := start + i * chunkSize;
      if chunkStart + actualChunkSize > U64_MAX {
        return tasks, true;
      }
      var chunkEnd: u64 := chunkStart + actualChunkSize - 1;
      var task := new MiningTask(block, chunkStart, chunkEnd);
      tasks := tasks + [task];
      i := i + 1;
    }
    overflow := false;
  }

  /**
   * Chunk `i` of `count` ends inside the range of `count * size + extra`
   * candidates, and it reaches the last candidate only when it is the last
   * chunk and there is no remainder.
   */
  lemma ChunkFits(i: nat, count: nat, size: nat, extra: nat)
    requires i < count && extra < count && 1 <= size
    ensures 0 <= i * size
    ensures i * size + (if i < extra then size + 1 else size) <= count * size + extra
    ensures i * size + (if i < extra then size + 1 else size) == count * size + extra <==> i + 1 == count && extra == 0
  {
    MulMono(i + 1, count, size);
    if i + 1 < count {
      MulMono(i + 2, count, size);
    }
  }

  /** With the sizes `mine_range` computes, the enqueued tasks are the chunks of `Partition.WrittenChunk`. */
  lemma TasksAreWrittenChunks(block: Block, start: int, end: int, chunks: nat, tasks: seq<MiningTask>)
    requires start <= end && chunks > 0
    requires |tasks| == ChunkCount(start, end, chunks)
    requires forall j :: 0 <= j < |tasks| ==>
      tasks[j].block == block &&
      tasks[j].start == start + j * BaseSize(start, end, chunks) &&
      tasks[j].end == tasks[j].start + (if j < Remainder(start, end, chunks) then BaseSize(start, end, chunks) + 1 else BaseSize(start, end, chunks)) - 1
    ensures forall j :: 0 <= j < |tasks| ==>
      tasks[j].start == WrittenChunk(start, end, chunks, j).lo &&
      tasks[j].end == WrittenChunk(start, end, chunks, j).hi
  {
  }

  /**
   * The enqueuing loop of `MineRangeTiled`: as in `EnqueueChunks`, except
   * that task `i` starts `min(i, extra)` candidates later.
   */
  method EnqueueEvenChunks(block: Block, start: u64, end: u64, count: u64, chunkSize: u64, extra: u64)
    returns (tasks: seq<MiningTask>)
    requires start <= end && 1 <= count && 1 <= chunkSize && extra < count
    requires count * chunkSize + extra == end - start + 1
    ensures |tasks| == count
    ensures forall j :: 0 <= j < |tasks| ==>
      tasks[j].block == block &&
      tasks[j].start == start + j * chunkSize + (if j < extra then j else extra) &&
      tasks[j].end == tasks[j].start + (if j < extra then chunkSize + 1 else chunkSize) - 1
  {
    var remainder := extra;
    tasks := [];
    var i: u64 := 0;
    while i < count
      invariant i <= count && |tasks| == i as int
      invariant remainder == if i < extra then extra - i else 0
      invariant forall j :: 0 <= j < i ==>
        tasks[j].block == block &&
        tasks[j].start == start + j * chunkSize + (if j < extra then j else extra) &&
        tasks[j].end == tasks[j].start + (if j < extra then chunkSize + 1 else chunkSize) - 1
    {
      var actualChunkSize;
      if remainder > 0 {
        remainder := remainder - 1;
        actualChunkSize := chunkSize + 1;
      } else {
        actualChunkSize := chunkSize;
      }
      EvenChunkFits(i, count, chunkSize, extra);
      var chunkStart: u64 := start + i * chunkSize + (if i < extra then i else extra);
      var chunkEnd: u64 := chunkStart + (actualChunkSize - 1);
      var task := new MiningTask(block, chunkStart, chunkEnd);
      tasks := tasks + [task];
      i := i + 1;
    }
  }

  /** Corrected chunk `i` of `count` ends inside the range of `count * size + extra` candidates. */
  lemma EvenChunkFits(i: nat, count: nat, size: nat, extra: nat)
    requires i < count && extra < count && 1 <= size
    ensures 0 <= i * size
    ensures i * size + (if i < extra then i else extra) + (if i < extra then size + 1 else size) <= count * size + extra
  {
    MulMono(i + 1, count, size);
  }

  /** With the sizes `mine_range` computes, the corrected tasks are the chunks of `Partition.EvenChunk`. */
  lemma TasksAreEvenChunks(block: Block, start: int, end: int, chunks: nat, tasks: seq<MiningTask>)
    requires start <= end && chunks > 0
    requires |tasks| == ChunkCount(start, end, chunks)
    requires forall j :: 0 <= j < |tasks| ==>
      tasks[j].block == block &&
      tasks[j].start == start + j * BaseSize(start, end, chunks) + (if j < Remainder(start, end, chunks) then j else Remainder(start, end, chunks)) &&
      tasks[j].end == tasks[j].start + (if j < Remainder(start, end, chunks) then BaseSize(start, end, chunks) + 1 else BaseSize(start, end, chunks)) - 1
    ensures |EvenChunks(start, end, chunks)| == |tasks|
    ensures forall j :: 0 <= j < |tasks| ==>
      tasks[j].block == block &&
      tasks[j].start == EvenChunks(start, end, chunks)[j].lo &&
      tasks[j].end == EvenChunks(start, end, chunks)[j].hi
  {
  }

  // ---------------------------------------------------------------------------
  // Lemmas connecting the chunks to the searched range

  /** The four hashed fields of `a` and `b` agree. */
  predicate SameFields(a: Block, b: Block)
  {
    a.prevHash == b.prevHash && a.generation == b.generation && a.difficulty == b.difficulty && a.data == b.data
  }

  /** Validity depends only on the four hashed fields, so a clone judges every proof alike. */
  lemma SameFieldsSameValidity(a: Block, b: Block)
    requires SameFields(a, b)
    ensures forall p: u64 :: a.ValidFor(p) == b.ValidFor(p)
  {
    forall p: u64
      ensures a.ValidFor(p) == b.ValidFor(p)
    {
      assert a.HashStringForProof(p) == b.HashStringForProof(p);
    }
  }

  /**
   * What `mine_range` gets from the queue, given the tasks it enqueued on a
   * clone of `self`: a proof inside `[start, end]`; one exactly when the
   * searched prefix holds a valid proof; with one worker, the least valid
   * proof from `start` on.
   */
  lemma MineRangeOutcome(self: Block, block: Block, start: int, end: int, chunks: nat, workers: nat, tasks: seq<MiningTask>, r: Outcome)
    requires SameFields(self, block)
    requires start <= end && chunks > 0
    requires |tasks| == ChunkCount(start, end, chunks)
    requires forall j :: 0 <= j < |tasks| ==>
      tasks[j].block == block &&
      tasks[j].start == start + j * BaseSize(start, end, chunks) &&
      tasks[j].end == tasks[j].start + (if j < Remainder(start, end, chunks) then BaseSize(start, end, chunks) + 1 else BaseSize(start, end, chunks)) - 1
    requires workers > 0 ==> (r.Found? <==> exists j :: 0 <= j < |tasks| && HasValid(tasks[j].block, tasks[j].start, tasks[j].end))
    requires r.Found? ==>
      exists k :: (0 <= k < |tasks| && LeastValid(tasks[k].block, tasks[k].start, tasks[k].end, r.proof) &&
                   (workers == 1 ==> forall j :: 0 <= j < k ==> !HasValid(tasks[j].block, tasks[j].start, tasks[j].end)))
    ensures r.Found? ==> start <= r.proof <= end && self.ValidFor(r.proof)
    ensures workers > 0 ==> (r.Found? <==> HasValid(self, start, end - Remainder(start, end, chunks)))
    ensures r.Found? && workers == 1 ==> forall q: u64 :: start <= q < r.proof ==> !self.ValidFor(q)
  {
    TasksAreWrittenChunks(block, start, end, chunks, tasks);
    QueueOutcome(block, start, end, chunks, workers, tasks, r);
    SameFieldsSameValidity(block, self);
  }

  /**
   * The queue's result in terms of the chunks of block.rs: a proof inside
   * `[start, end]`; one exactly when the searched prefix holds a valid
   * proof; with one worker, the least valid proof from `start` on.
   */
  lemma QueueOutcome(block: Block, start: int, end: int, chunks: nat, workers: nat, tasks: seq<MiningTask>, r: Outcome)
    requires start <= end && chunks > 0
    requires |tasks| == ChunkCount(start, end, chunks)
    requires forall j :: 0 <= j < |tasks| ==>
      tasks[j].block == block &&
      tasks[j].start == WrittenChunk(start, end, chunks, j).lo &&
      tasks[j].end == WrittenChunk(start, end, chunks, j).hi
    requires workers > 0 ==> (r.Found? <==> exists j :: 0 <= j < |tasks| && HasValid(tasks[j].block, tasks[j].start, tasks[j].end))
    requires r.Found? ==>
      exists k :: (0 <= k < |tasks| && LeastValid(tasks[k].block, tasks[k].start, tasks[k].end, r.proof) &&
                   (workers == 1 ==> forall j :: 0 <= j < k ==> !HasValid(tasks[j].block, tasks[j].start, tasks[j].end)))
    ensures r.Found? ==> start <= r.proof <= end && block.ValidFor(r.proof)
    ensures workers > 0 ==> (r.Found? <==> HasValid(block, start, end - Remainder(start, end, chunks)))
    ensures r.Found? && workers == 1 ==> forall q: u64 :: start <= q < r.proof ==> !block.ValidFor(q)
  {
    WrittenChunksInside(start, end, chunks);
    if r.Found? {
      var k :| 0 <= k < |tasks| && LeastValid(tasks[k].block, tasks[k].start, tasks[k].end, r.proof) &&
        (workers == 1 ==> forall j :: 0 <= j < k ==> !HasValid(tasks[j].block, tasks[j].start, tasks[j].end));
      assert WrittenChunks(start, end, chunks)[k] == WrittenChunk(start, end, chunks, k);
      if workers == 1 {
        FirstSuccessIsLeast(block, start, end, chunks, k, r.proof);
      }
    }
    if workers > 0 {
      SearchedPrefix(block, start, end, chunks);
    }
  }

  /** The corrected counterpart of `MineRangeOutcome`: the whole of `[start, end]` is searched. */
  lemma EvenQueueOutcome(self: Block, block: Block, start: int, end: int, chunks: nat, workers: nat, tasks: seq<MiningTask>, r: Outcome)
    requires SameFields(self, block)
    requires start <= end && chunks > 0
    requires |tasks| == ChunkCount(start, end, chunks)
    requires forall j :: 0 <= j < |tasks| ==>
      tasks[j].block == block &&
      tasks[j].start == start + j * BaseSize(start, end, chunks) + (if j < Remainder(start, end, chunks) then j else Remainder(start, end, chunks)) &&
      tasks[j].end == tasks[j].start + (if j < Remainder(start, end, chunks) then BaseSize(start, end, chunks) + 1 else BaseSize(start, end, chunks)) - 1
    requires workers > 0 ==> (r.Found? <==> exists j :: 0 <= j < |tasks| && HasValid(tasks[j].block, tasks[j].start, tasks[j].end))
    requires r.Found? ==>
      exists k :: (0 <= k < |tasks| && LeastValid(tasks[k].block, tasks[k].start, tasks[k].end, r.proof) &&
                   (workers == 1 ==> forall j :: 0 <= j < k ==> !HasValid(tasks[j].block, tasks[j].start, tasks[j].end)))
    ensures r.Found? ==> start <= r.proof <= end && self.ValidFor(r.proof)
    ensures workers > 0 ==> (r.Found? <==> HasValid(self, start, end))
    ensures r.Found? && workers == 1 ==> forall q: u64 :: start <= q < r.proof ==> !self.ValidFor(q)
  {
    TasksAreEvenChunks(block, start, end, chunks, tasks);
    EvenChunksTile(start, end, chunks);
    TiledQueueOutcome(block, start, end, EvenChunks(start, end, chunks), workers, tasks, r);
    SameFieldsSameValidity(block, self);
  }

  /**
   * What the queue yields when the tasks' chunks tile `[start, end]`: a
   * proof of the range; one exactly when the range holds a valid proof; with
   * one worker, the least valid proof of the range.
   */
  lemma TiledQueueOutcome(block: Block, start: int, end: int, cs: seq<Chunk>, workers: nat, tasks: seq<MiningTask>, r: Outcome)
    requires Tiles(cs, start, end) && |tasks| == |cs|
    requires forall j :: 0 <= j < |tasks| ==>
      tasks[j].block == block && tasks[j].start == cs[j].lo && tasks[j].end == cs[j].hi
    requires workers > 0 ==> (r.Found? <==> exists j :: 0 <= j < |tasks| && HasValid(tasks[j].block, tasks[j].start, tasks[j].end))
    requires r.Found? ==>
      exists k :: (0 <= k < |tasks| && LeastValid(tasks[k].block, tasks[k].start, tasks[k].end, r.proof) &&
                   (workers == 1 ==> forall j :: 0 <= j < k ==> !HasValid(tasks[j].block, tasks[j].start, tasks[j].end)))
    ensures r.Found? ==> start <= r.proof <= end && block.ValidFor(r.proof)
    ensures workers > 0 ==> (r.Found? <==> HasValid(block, start, end))
    ensures r.Found? && workers == 1 ==> forall q: u64 :: start <= q < r.proof ==> !block.ValidFor(q)
  {
    if r.Found? {
      var k :| 0 <= k < |tasks| && LeastValid(tasks[k].block, tasks[k].start, tasks[k].end, r.proof) &&
        (workers == 1 ==> forall j :: 0 <= j < k ==> !HasValid(tasks[j].block, tasks[j].start, tasks[j].end));
      TilesPartition(cs, start, end, r.proof);
      if workers == 1 {
        TiledFirstSuccessIsLeast(block, start, end, cs, tasks, k, r.proof);
      }
    }
    if workers > 0 {
      TiledSearchesAll(block, start, end, cs, tasks);
    }
  }

  /** Some task over chunks that tile `[start, end]` holds a valid proof iff the range does. */
  lemma TiledSearchesAll(block: Block, start: int, end: int, cs: seq<Chunk>, tasks: seq<MiningTask>)
    requires Tiles(cs, start, end) && |tasks| == |cs|
    requires forall j :: 0 <= j < |tasks| ==>
      tasks[j].block == block && tasks[j].start == cs[j].lo && tasks[j].end == cs[j].hi
    ensures (exists j :: 0 <= j < |tasks| && HasValid(tasks[j].block, tasks[j].start, tasks[j].end)) <==> HasValid(block, start, end)
  {
    if exists j :: 0 <= j < |tasks| && HasValid(tasks[j].block, tasks[j].start, tasks[j].end) {
      var j :| 0 <= j < |tasks| && HasValid(tasks[j].block, tasks[j].start, tasks[j].end);
      var p: u64 :| tasks[j].start <= p <= tasks[j].end && block.ValidFor(p);
      TilesPartition(cs, start, end, p);
    }
    if HasValid(block, start, end) {
      var p: u64 :| start <= p <= end && block.ValidFor(p);
      TilesPartition(cs, start, end, p);
      var j :| 0 <= j < |cs| && cs[j].lo <= p <= cs[j].hi;
      assert HasValid(tasks[j].block, tasks[j].start, tasks[j].end);
    }
  }

  /** Over tiling chunks, the least proof of the first successful chunk is the least of the range. */
  lemma TiledFirstSuccessIsLeast(block: Block, start: int, end: int, cs: seq<Chunk>, tasks: seq<MiningTask>, k: nat, p: int)
    requires Tiles(cs, start, end) && |tasks| == |cs| && k < |tasks|
    requires forall j :: 0 <= j < |tasks| ==>
      tasks[j].block == block && tasks[j].start == cs[j].lo && tasks[j].end == cs[j].hi
    requires LeastValid(block, cs[k].lo, cs[k].hi, p)
    requires forall j :: 0 <= j < k ==> !HasValid(tasks[j].block, tasks[j].start, tasks[j].end)
    ensures forall q: u64 :: start <= q < p ==> !block.ValidFor(q)
  {
    TilesOrdered(cs, start, end);
    TilesPartition(cs, start, end, p);
    forall q: u64 | start <= q < p
      ensures !block.ValidFor(q)
    {
      TilesPartition(cs, start, end, q);
      var j :| 0 <= j < |cs| && cs[j].lo <= q <= cs[j].hi;
      if j < k {
        assert !HasValid(tasks[j].block, tasks[j].start, tasks[j].end);
      }
    }
  }

  /** Some chunk of block.rs holds a valid proof iff the searched prefix `[start, end - remainder]` does. */
  lemma SearchedPrefix(block: Block, start: int, end: int, chunks: nat)
    requires start <= end && chunks > 0
    ensures (exists j :: 0 <= j < ChunkCount(start, end, chunks) &&
               HasValid(block, WrittenChunk(start, end, chunks, j).lo, WrittenChunk(start, end, chunks, j).hi))
            <==> HasValid(block, start, end - Remainder(start, end, chunks))
  {
    var w := WrittenChunks(start, end, chunks);
    if exists j :: 0 <= j < ChunkCount(start, end, chunks) &&
         HasValid(block, WrittenChunk(start, end, chunks, j).lo, WrittenChunk(start, end, chunks, j).hi) {
      var j :| 0 <= j < ChunkCount(start, end, chunks) &&
        HasValid(block, WrittenChunk(start, end, chunks, j).lo, WrittenChunk(start, end, chunks, j).hi);
      var p: u64 :| WrittenChunk(start, end, chunks, j).lo <= p <= WrittenChunk(start, end, chunks, j).hi && block.ValidFor(p);
      assert w[j].lo <= p <= w[j].hi;
      WrittenChunksCover(start, end, chunks, p);
    }
    if HasValid(block, start, end - Remainder(start, end, chunks)) {
      var p: u64 :| start <= p <= end - Remainder(start, end, chunks) && block.ValidFor(p);
      var j := WrittenChunkOf(start, end, chunks, p);
      assert HasValid(block, WrittenChunk(start, end, chunks, j).lo, WrittenChunk(start, end, chunks, j).hi);
    }
  }

  /**
   * If chunk `k` is the first chunk with a valid proof and `p` is its least
   * one, then `p` is the least valid proof from `start` on: every candidate
   * before chunk `k` starts lies in an earlier chunk.
   */
  lemma FirstSuccessIsLeast(block: Block, start: int, end: int, chunks: nat, k: nat, p: int)
    requires start <= end && chunks > 0 && k < ChunkCount(start, end, chunks)
    requires LeastValid(block, WrittenChunk(start, end, chunks, k).lo, WrittenChunk(start, end, chunks, k).hi, p)
    requires forall j :: 0 <= j < k ==>
      !HasValid(block, WrittenChunk(start, end, chunks, j).lo, WrittenChunk(start, end, chunks, j).hi)
    ensures forall q: u64 :: start <= q < p ==> !block.ValidFor(q)
  {
    forall q: u64 | start <= q < p
      ensures !block.ValidFor(q)
    {
      var lo := WrittenChunk(start, end, chunks, k).lo;
      if q < lo {
        WrittenChunksInside(start, end, chunks);
        WrittenChunkEnd(start, end, chunks, k);
        assert q <= end - Remainder(start, end, chunks);
        var j := WrittenChunkOf(start, end, chunks, q);
        if j >= k {
          MulMono(k, j, BaseSize(start, end, chunks));
          assert false;
        }
      }
    }
  }

  /** `8 * (1 << d)` fits in a `u64` for `d <= 60`, with room to spare. */
  lemma MineForProofEndFits(d: nat)
    requires d <= 60
    ensures 8 * Pow2(d) < U64_MAX
  {
    Pow2Shift3(d);
    Pow2Monotone(d + 3, 63);
    Pow2Of63();
  }

  // ---------------------------------------------------------------------------
  // The scenarios of block_tests.rs that do not depend on concrete hash values

  /** The genesis block is rendered as 64 zeros, generation 0, its difficulty, empty data and the proof. */
  lemma GenesisEncoding(d: u8, p: u64)
    ensures Encode(Fields(ZeroHash, 0, d, "", p)) == seq(64, _ => '0') + ":0:" + Decimal(d) + "::" + Decimal(p)
  {
    HexOfZeros(32);
    assert Decimal(0) == "0";
  }

  /** A generation-1, difficulty-0 block with proof 0 and the test's data, as a string. */
  lemma SuccessorZeroString(h: Digest)
    ensures Encode(Fields(h, 1, 0, "hello I am string 1", 0)) == Hex(h) + ":1:0:hello I am string 1:0"
  {
    var x := Hex(h);
    assert Decimal(1) == "1" && Decimal(0) == "0";
    assert Encode(Fields(h, 1, 0, "hello I am string 1", 0)) ==
      x + ":" + "1" + ":" + "0" + ":" + "hello I am string 1" + ":" + "0";
    SuccessorTail(x);
  }

  lemma SuccessorTail(x: string)
    ensures x + ":" + "1" + ":" + "0" + ":" + "hello I am string 1" + ":" + "0" == x + ":1:0:hello I am string 1:0"
  {
    assert ":" + "1" + ":" + "0" + ":" + "hello I am string 1" + ":" + "0" == ":1:0:hello I am string 1:0";
  }

  /**
   * Mining a difficulty-0 block with one worker sets its proof to 0: every
   * proof is valid, so the least one is found.
   */
  method MineDifficultyZeroWithOneWorker(b: Block)
    requires b.difficulty == 0
    modifies b
    ensures b.proof == Some(0)
  {
    MineDifficultyZeroGivesZero(b);
    assert b.ValidFor(0);
    var r := b.Mine(1);
    assert r.Found?;
  }

  /**
   * `test_mine_block_difficulty_0` (first half): the difficulty-0 genesis
   * block mined with one worker gets proof 0, so its canonical string is 64
   * '0' characters followed by `:0:0::0`, and it is valid.
   */
  method MineGenesisDifficultyZero() returns (s: string, valid: bool)
    ensures s == seq(64, _ => '0') + ":0:0::0"
    ensures valid
  {
    var b0 := new Block.Initial(0);
    MineDifficultyZeroWithOneWorker(b0);
    s := b0.HashString();
    GenesisEncoding(0, 0);
    assert Decimal(0) == "0";
    valid := b0.IsValid();
  }

  /**
   * `test_mine_block_difficulty_0` (second half): a successor of a mined
   * difficulty-0 block, mined with one worker, carries the predecessor's
   * digest in hex, generation 1, its data and proof 0.
   */
  method MineSuccessorDifficultyZero(b0: Block) returns (s: string, valid: bool)
    requires b0.difficulty == 0 && b0.generation == 0 && b0.proof.Some?
    ensures s == Hex(b0.Hash()) + ":1:0:hello I am string 1:0"
    ensures valid
  {
    var b1 := new Block.Next(b0, "hello I am string 1");
    MineDifficultyZeroWithOneWorker(b1);
    s := b1.HashString();
    SuccessorZeroString(b1.prevHash);
    valid := b1.IsValid();
  }

  /** At difficulty 0 every proof is valid and the searched range `[0, 8]` is tiled exactly. */
  lemma MineDifficultyZeroGivesZero(b: Block)
    requires b.difficulty == 0
    ensures forall p: u64 :: b.ValidFor(p)
    ensures 8 * Pow2(b.difficulty) - Remainder(0, 8 * Pow2(b.difficulty), MineChunks) == 8
  {
    SmallRangeExact(0);
  }

  /**
   * At difficulty 0, `mine_for_proof` enqueues the nine one-candidate chunks
   * `[0, 0]`, ..., `[8, 8]`; with several workers any of them may report
   * first, so `mine` may store any proof in `0 ..= 8`.
   */
  lemma DifficultyZeroChunks()
    ensures ChunkCount(0, 8, MineChunks) == 9 && Remainder(0, 8, MineChunks) == 0
    ensures forall i :: 0 <= i < 9 ==> WrittenChunk(0, 8, MineChunks, i) == Chunk(i, i)
  {
    assert ChunkCount(0, 8, MineChunks) == 9;
    assert BaseSize(0, 8, MineChunks) == 1;
  }

  // ---------------------------------------------------------------------------
  // `mine_serial` against `mine` (block.rs:124-126: "Results should be the same as .mine")

  /**
   * Mines a copy of `b` serially and `b` itself with one worker. The two agree
   * whenever `mine` finds a proof, and exactly when the least valid proof lies
   * in the part of `[0, 8 * 2^difficulty]` that `mine` searches; above it,
   * `mine_serial` still finds the proof and `mine` waits forever.
   */
  method MineMatchesSerial(b: Block) returns (viaMine: Outcome, serial: Outcome)
    modifies b
    ensures viaMine.Found? ==> serial == viaMine
    ensures b.difficulty <= 60 && serial.Found? ==>
      (viaMine == serial <==> serial.proof <= 8 * Pow2(b.difficulty) - Remainder(0, 8 * Pow2(b.difficulty), MineChunks))
    ensures b.difficulty <= 60 && serial.Found? &&
            serial.proof > 8 * Pow2(b.difficulty) - Remainder(0, 8 * Pow2(b.difficulty), MineChunks)
            ==> viaMine == NeverReturns
  {
    var copy := new Block.Clone(b);
    SameFieldsSameValidity(b, copy);
    serial := copy.MineSerial();
    viaMine := b.Mine(1);
  }
}
