/**
 * How `Block::mine_range` (block.rs:142-179) cuts the inclusive candidate
 * range `[start, end]` into chunks, one `MiningTask` each.
 *
 * The source clamps the chunk count to the range length, gives every chunk
 * `range / chunks` candidates and the first `range % chunks` chunks one more,
 * but starts chunk `i` at `start + i * chunk_size`, ignoring the extra
 * candidates already handed out. This module models that arithmetic as
 * written (`WrittenChunk`), proves what it covers (everything up to
 * `end - remainder`, so the last `remainder` candidates are never searched)
 * and, beside it, the evidently intended partition (`EvenChunk`) together
 * with the proof that it tiles the range exactly.
 */
module Partition {
  import opened Arithmetic

  /** An inclusive range of candidate proofs, `[lo, hi]`. */
  datatype Chunk = Chunk(lo: int, hi: int)

  /** Some chunk of `cs` contains `p`. */
  predicate Covers(cs: seq<Chunk>, p: int)
  {
    exists i :: 0 <= i < |cs| && cs[i].lo <= p <= cs[i].hi
  }

  /**
   * `cs` tiles `[start, end]`: non-empty chunks, the first starting at
   * `start`, each next one starting right after the previous one ends, the
   * last ending at `end`.
   */
  predicate Tiles(cs: seq<Chunk>, start: int, end: int)
  {
    |cs| > 0 && cs[0].lo == start && cs[|cs| - 1].hi == end &&
    (forall i :: 0 <= i < |cs| ==> cs[i].lo <= cs[i].hi) &&
    (forall i :: 0 < i < |cs| ==> cs[i].lo == cs[i - 1].hi + 1)
  }

  // ---------------------------------------------------------------------------
  // The arithmetic of block.rs:151-169

  /** `range = end - start + 1`, then `chunks` is lowered to `range` if larger. */
  function ChunkCount(start: int, end: int, chunks: nat): (r: nat)
    requires start <= end
    ensures r <= chunks && r <= end - start + 1
    ensures r == chunks || r == end - start + 1
  {
    var range := end - start + 1;
    if chunks > range then range else chunks
  }

  /** `chunk_size = range / chunks` (after clamping). */
  function BaseSize(start: int, end: int, chunks: nat): (r: nat)
    requires start <= end && chunks > 0
    ensures r >= 1
  {
    (end - start + 1) / ChunkCount(start, end, chunks)
  }

  /** `remainder = range % chunks` (after clamping). */
  function Remainder(start: int, end: int, chunks: nat): (r: nat)
    requires start <= end && chunks > 0
    ensures r < ChunkCount(start, end, chunks)
  {
    (end - start + 1) % ChunkCount(start, end, chunks)
  }

  /** `actual_chunk_size`: the first `remainder` chunks get one extra candidate. */
  function ChunkLength(start: int, end: int, chunks: nat, i: nat): (r: nat)
    requires start <= end && chunks > 0
    ensures BaseSize(start, end, chunks) <= r <= BaseSize(start, end, chunks) + 1
    ensures r == BaseSize(start, end, chunks) + 1 <==> i < Remainder(start, end, chunks)
  {
    if i < Remainder(start, end, chunks) then BaseSize(start, end, chunks) + 1 else BaseSize(start, end, chunks)
  }

  /** Chunk `i` as the source enqueues it: `chunk_start = start + i * chunk_size`. */
  function WrittenChunk(start: int, end: int, chunks: nat, i: nat): (c: Chunk)
    requires start <= end && chunks > 0
    ensures start <= c.lo <= c.hi
    ensures c.hi - c.lo + 1 == ChunkLength(start, end, chunks, i)
  {
    var lo := start + i * BaseSize(start, end, chunks);
    Chunk(lo, lo + ChunkLength(start, end, chunks, i) - 1)
  }

  function WrittenChunks(start: int, end: int, chunks: nat): seq<Chunk>
    requires start <= end && chunks > 0
  {
    seq(ChunkCount(start, end, chunks), i requires 0 <= i => WrittenChunk(start, end, chunks, i))
  }

  /** Chunk `i` as evidently intended: its start also skips the extra candidates of earlier chunks. */
  function EvenChunk(start: int, end: int, chunks: nat, i: nat): Chunk
    requires start <= end && chunks > 0
  {
    var r := Remainder(start, end, chunks);
    var lo := start + i * BaseSize(start, end, chunks) + (if i < r then i else r);
    Chunk(lo, lo + ChunkLength(start, end, chunks, i) - 1)
  }

  function EvenChunks(start: int, end: int, chunks: nat): seq<Chunk>
    requires start <= end && chunks > 0
  {
    seq(ChunkCount(start, end, chunks), i requires 0 <= i => EvenChunk(start, end, chunks, i))
  }

  // ---------------------------------------------------------------------------
  // Arithmetic helpers

  /** The clamped count is between 1 and the range length, and `count * size + remainder` is the range. */
  lemma ChunkArithmetic(start: int, end: int, chunks: nat)
    requires start <= end && chunks > 0
    ensures 1 <= ChunkCount(start, end, chunks) <= end - start + 1
    ensures BaseSize(start, end, chunks) >= 1
    ensures Remainder(start, end, chunks) < ChunkCount(start, end, chunks)
    ensures ChunkCount(start, end, chunks) * BaseSize(start, end, chunks) + Remainder(start, end, chunks) == end - start + 1
  {
  }

  // ---------------------------------------------------------------------------
  // What the chunks of block.rs cover

  /**
   * Every enqueued chunk is non-empty and lies inside `[start, end]`, and the
   * first one starts at `start`; there is at least one chunk.
   */
  lemma WrittenChunksInside(start: int, end: int, chunks: nat)
    requires start <= end && chunks > 0
    ensures var w := WrittenChunks(start, end, chunks);
      |w| >= 1 && w[0].lo == start &&
      forall i :: 0 <= i < |w| ==> start <= w[i].lo <= w[i].hi <= end
  {
    var k, cs, r := ChunkCount(start, end, chunks), BaseSize(start, end, chunks), Remainder(start, end, chunks);
    ChunkArithmetic(start, end, chunks);
    forall i | 0 <= i < k
      ensures start <= WrittenChunk(start, end, chunks, i).lo <= WrittenChunk(start, end, chunks, i).hi <= end
    {
      WrittenChunkEnd(start, end, chunks, i);
    }
  }

  /** The last candidate of chunk `i`: one past `start + (i + 1) * size` for the first `remainder` chunks. */
  lemma WrittenChunkEnd(start: int, end: int, chunks: nat, i: nat)
    requires start <= end && chunks > 0 && i < ChunkCount(start, end, chunks)
    ensures WrittenChunk(start, end, chunks, i).lo <= WrittenChunk(start, end, chunks, i).hi
    ensures WrittenChunk(start, end, chunks, i).hi <= end - Remainder(start, end, chunks)
    ensures WrittenChunk(start, end, chunks, i).hi ==
      start + (i + 1) * BaseSize(start, end, chunks) - (if i < Remainder(start, end, chunks) then 0 else 1)
  {
    var k, cs, r := ChunkCount(start, end, chunks), BaseSize(start, end, chunks), Remainder(start, end, chunks);
    ChunkArithmetic(start, end, chunks);
    if i < r {
      // i + 1 <= r <= k - 1, so (i + 1) * cs <= k * cs - cs
      MulMono(i + 1, k - 1, cs);
    } else {
      MulMono(i + 1, k, cs);
    }
  }

  /**
   * The chunks of block.rs cover exactly `[start, end - remainder]`: the last
   * `remainder` candidates of the range are in no chunk.
   */
  lemma WrittenChunksCover(start: int, end: int, chunks: nat, p: int)
    requires start <= end && chunks > 0
    ensures Covers(WrittenChunks(start, end, chunks), p) <==> start <= p <= end - Remainder(start, end, chunks)
  {
    var w := WrittenChunks(start, end, chunks);
    if Covers(w, p) {
      var i :| 0 <= i < |w| && w[i].lo <= p <= w[i].hi;
      WrittenChunksInside(start, end, chunks);
      WrittenChunkEnd(start, end, chunks, i);
    }
    if start <= p <= end - Remainder(start, end, chunks) {
      var i := WrittenChunkOf(start, end, chunks, p);
      assert w[i].lo <= p <= w[i].hi;
    }
  }

  /** The chunk that holds `p` in the searched prefix: `(p - start) / chunk_size`. */
  lemma WrittenChunkOf(start: int, end: int, chunks: nat, p: int) returns (i: nat)
    requires start <= end && chunks > 0
    requires start <= p <= end - Remainder(start, end, chunks)
    ensures i < ChunkCount(start, end, chunks)
    ensures WrittenChunk(start, end, chunks, i).lo <= p <= WrittenChunk(start, end, chunks, i).hi
  {
    var k, cs := ChunkCount(start, end, chunks), BaseSize(start, end, chunks);
    ChunkArithmetic(start, end, chunks);
    i := (p - start) / cs;
    var off := (p - start) % cs;
    assert p - start == i * cs + off;
    if i >= k {
      MulMono(k, i, cs);
      assert false;
    }
    WrittenChunkEnd(start, end, chunks, i);
  }

  /** The chunks of block.rs tile `[start, end]` exactly if and only if the range divides evenly. */
  lemma WrittenChunksTileIff(start: int, end: int, chunks: nat)
    requires start <= end && chunks > 0
    ensures Tiles(WrittenChunks(start, end, chunks), start, end) <==> Remainder(start, end, chunks) == 0
  {
    var w := WrittenChunks(start, end, chunks);
    var k, cs, r := ChunkCount(start, end, chunks), BaseSize(start, end, chunks), Remainder(start, end, chunks);
    ChunkArithmetic(start, end, chunks);
    WrittenChunksInside(start, end, chunks);
    WrittenChunkEnd(start, end, chunks, k - 1);
    if r == 0 {
      forall i | 0 < i < k
        ensures w[i].lo == w[i - 1].hi + 1
      {
        WrittenChunkEnd(start, end, chunks, i - 1);
      }
      assert k * cs == end - start + 1;
    }
  }

  /** Where the partition goes wrong: chunk `i < remainder` overlaps chunk `i + 1` by one candidate. */
  lemma WrittenChunksOverlap(start: int, end: int, chunks: nat, i: nat)
    requires start <= end && chunks > 0
    requires i < Remainder(start, end, chunks)
    ensures i + 1 < ChunkCount(start, end, chunks)
    ensures WrittenChunk(start, end, chunks, i).hi == WrittenChunk(start, end, chunks, i + 1).lo
  {
    ChunkArithmetic(start, end, chunks);
    WrittenChunkEnd(start, end, chunks, i);
  }

  /** A concrete case: `[0, 2]` in two chunks is enqueued as `[0, 1]` and `[1, 1]`; 2 is never searched. */
  lemma WrittenChunksMissLastCandidate()
    ensures WrittenChunks(0, 2, 2) == [Chunk(0, 1), Chunk(1, 1)]
    ensures !Covers(WrittenChunks(0, 2, 2), 2)
  {
    assert Remainder(0, 2, 2) == 1;
    WrittenChunksCover(0, 2, 2, 2);
  }

  // ---------------------------------------------------------------------------
  // The intended partition

  /** `EvenChunk i` ends one before `EvenChunk (i + 1)` starts, and chunk `i` ends at `start + (i+1)*size + min(i+1, r) - 1`. */
  lemma EvenChunkEnd(start: int, end: int, chunks: nat, i: nat)
    requires start <= end && chunks > 0
    ensures var r := Remainder(start, end, chunks);
      EvenChunk(start, end, chunks, i).hi ==
        start + (i + 1) * BaseSize(start, end, chunks) + (if i + 1 < r then i + 1 else r) - 1
  {
  }

  /** The intended chunks tile `[start, end]` exactly: no gap, no overlap, nothing outside. */
  lemma EvenChunksTile(start: int, end: int, chunks: nat)
    requires start <= end && chunks > 0
    ensures Tiles(EvenChunks(start, end, chunks), start, end)
  {
    var e := EvenChunks(start, end, chunks);
    var k, cs, r := ChunkCount(start, end, chunks), BaseSize(start, end, chunks), Remainder(start, end, chunks);
    ChunkArithmetic(start, end, chunks);
    forall i | 0 < i < k
      ensures e[i].lo == e[i - 1].hi + 1
    {
      EvenChunkEnd(start, end, chunks, i - 1);
    }
    EvenChunkEnd(start, end, chunks, k - 1);
    assert e[k - 1].hi == start + k * cs + r - 1;
  }

  /** Chunks that tile `[start, end]` are pairwise disjoint and their union is `[start, end]`. */
  lemma {:induction false} TilesPartition(cs: seq<Chunk>, start: int, end: int, p: int)
    requires Tiles(cs, start, end)
    ensures Covers(cs, p) <==> start <= p <= end
    ensures forall i, j :: 0 <= i < j < |cs| ==> cs[i].hi < cs[j].lo
  {
    TilesOrdered(cs, start, end);
    if start <= p <= end {
      TilesFind(cs, start, end, p);
    }
    if Covers(cs, p) {
      var i :| 0 <= i < |cs| && cs[i].lo <= p <= cs[i].hi;
      if i > 0 {
        assert cs[0].hi < cs[i].lo;
      }
      if i < |cs| - 1 {
        assert cs[i].hi < cs[|cs| - 1].lo;
      }
    }
  }

  lemma {:induction false} TilesOrdered(cs: seq<Chunk>, start: int, end: int)
    requires Tiles(cs, start, end)
    ensures forall i, j :: 0 <= i < j < |cs| ==> cs[i].hi < cs[j].lo
  {
    forall i, j | 0 <= i < j < |cs|
      ensures cs[i].hi < cs[j].lo
    {
      var t := i + 1;
      while t < j
        invariant i < t <= j
        invariant cs[i].hi < cs[t].lo
      {
        t := t + 1;
      }
    }
  }

  lemma {:induction false} TilesFind(cs: seq<Chunk>, start: int, end: int, p: int)
    requires Tiles(cs, start, end) && start <= p <= end
    ensures Covers(cs, p)
  {
    var t := 0;
    while cs[t].hi < p
      invariant 0 <= t < |cs|
      invariant cs[t].lo <= p
      decreases |cs| - t
    {
      t := t + 1;
    }
  }

  // ---------------------------------------------------------------------------
  // The range `mine_for_proof` uses: [0, 8 * 2^difficulty] in 2345 chunks

  lemma {:induction false} Pow2Mod7(k: nat)
    ensures var x := Pow2(k) % 7; x == 1 || x == 2 || x == 4
  {
    if k > 0 {
      Pow2Mod7(k - 1);
      var y := Pow2(k - 1);
      var q, r := y / 7, y % 7;
      assert y == q * 7 + r;
      assert Pow2(k) == (2 * q) * 7 + 2 * r;
      ModAddMultiple(2 * q, 7, 2 * r);
      assert (2 * r) % 7 == (if r == 4 then 1 else 2 * r);
    }
  }

  /** `2^k + 1` is never a multiple of 2345 (= 5 * 7 * 67): it is not even a multiple of 7. */
  lemma Pow2PlusOneNotMultipleOf2345(k: nat)
    ensures (Pow2(k) + 1) % 2345 != 0
  {
    var x := Pow2(k) + 1;
    Pow2Mod7(k);
    var y := Pow2(k);
    assert y == (y / 7) * 7 + y % 7;
    ModAddMultiple(y / 7, 7, y % 7 + 1);
    assert x % 7 != 0;
    if x % 2345 == 0 {
      var q := x / 2345;
      assert x == (335 * q) * 7;
      ModAddMultiple(335 * q, 7, 0);
      assert false;
    }
  }

  lemma {:induction false} Pow2Shift3(d: nat)
    ensures Pow2(d + 3) == 8 * Pow2(d)
  {
    if d > 0 {
      Pow2Shift3(d - 1);
    }
  }

  /**
   * For `mine_for_proof`'s range `[0, 8 * 2^d]` split into 2345 chunks, the
   * chunks tile the range exactly for `d <= 8` and leave a non-empty tail
   * unsearched for every `d >= 9`.
   */
  lemma MineForProofRemainder(d: nat)
    ensures Remainder(0, 8 * Pow2(d), 2345) == 0 <==> d <= 8
  {
    if d <= 8 {
      SmallRangeExact(d);
    } else {
      LargeRangeRemainder(d);
    }
  }

  lemma SmallRangeExact(d: nat)
    requires d <= 8
    ensures Remainder(0, 8 * Pow2(d), 2345) == 0
  {
    var x := 8 * Pow2(d) + 1;
    Pow2Monotone(d, 8);
    Pow2Of8();
    assert x <= 2345;
    assert ChunkCount(0, x - 1, 2345) == x;
    ModAddMultiple(1, x, 0);
  }

  lemma LargeRangeRemainder(d: nat)
    requires d >= 9
    ensures Remainder(0, 8 * Pow2(d), 2345) != 0
  {
    var x := 8 * Pow2(d) + 1;
    Pow2Shift3(d);
    Pow2Monotone(9, d);
    Pow2Of8();
    assert Pow2(9) == 512;
    assert x > 2345;
    assert ChunkCount(0, x - 1, 2345) == 2345;
    Pow2PlusOneNotMultipleOf2345(d + 3);
    assert x == Pow2(d + 3) + 1;
  }

  /** The difficulty-24 block of block_tests.rs: the top 1654 of the 2^27 + 1 candidates are never searched. */
  lemma MineForProofDifficulty24Tail()
    ensures Remainder(0, 8 * Pow2(24), 2345) == 1654
    ensures !Covers(WrittenChunks(0, 8 * Pow2(24), 2345), 8 * Pow2(24))
  {
    Pow2Value24();
    WrittenChunksCover(0, 8 * Pow2(24), 2345, 8 * Pow2(24));
  }

  lemma Pow2Value24()
    ensures Pow2(24) == 16777216
  {
    Pow2Of8();
    Pow2Add(8, 8);
    Pow2Add(16, 8);
  }
}
