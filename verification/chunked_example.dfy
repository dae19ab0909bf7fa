/** A two-block file whose first block is a hole, stored with one-byte
    blocks and one-block chunks. The same shape at 4 KiB blocks is an 8 KiB
    file whose first 4 KiB were never written, stored with 4 KiB chunks.

    As written, the walk records no discontinuity between the hole and the
    data chunk after it, so minextblks stays at the file's two blocks and
    the index is merged into a single chunk: the pointer kept for it is the
    hole's, and the data block reads back as a hole. Counting hole
    boundaries as discontinuities keeps the two chunks.

    A second file, [5, 7] with both blocks data, meets a read() that fails
    on its second block. As written, -1 passes the length check, the buffer
    still holds the first block's byte, and the second slot is stored as a
    copy of the first chunk; checking for a failed read stops with EIO. */
module ChunkedExample {
  import opened Bits
  import opened Outcomes
  import Errno
  import opened ChunkStore
  import opened ChunkIndex
  import opened ChunkMerge
  import opened ChunkedFile

  /** A digest that tells one-byte buffers apart by their byte. */
  function ByteDigest(b: seq<byte>): (d: Digest)
    ensures |b| == 1 ==> d[0] == b[0]
  {
    if |b| > 0 then [b[0]] + seq(DIGEST_SIZE - 1, _ => 0) else seq(DIGEST_SIZE, _ => 0)
  }

  /** Every system call succeeds. */
  function AllOk(j: nat): ChunkIo
  {
    ChunkIo(false, true, ReadWhole, WriteIo(true, true))
  }

  /** Bytes [0, 7]; block 0 is a hole, block 1 holds data. */
  const SPARSE_HEAD: Source := Source([0, 7], [false, true], false, AllOk, [0])

  const EXAMPLE_ENV: Env := Env(SPARSE_HEAD, ByteDigest, false, 0, 0)

  /** The stored data chunk: byte 7 at block 0 of an empty blob. */
  const DATA_CHUNK: BlobChunk := BlobChunk(ByteDigest([7]), 0, 1, 0)

  /** The file is not fully sparse, so the configured zero chunk bits stay. */
  lemma ExampleChunkBits()
    ensures ChunkBitsFor(SPARSE_HEAD, 0, 0) == 0
    ensures Blksz(EXAMPLE_ENV) == 1 && ChunkSize(EXAMPLE_ENV) == 1 && Kb(EXAMPLE_ENV) == 1
    ensures NBlocks(EXAMPLE_ENV) == 2
  {
    assert NextData(SPARSE_HEAD.data, 1, 2) == Some(1);
    assert NextData(SPARSE_HEAD.data, 0, 2) == Some(1);
  }

  /** The walk, either way: a hole slot, then the data chunk stored at
      block 0. It lowers minextblks to 1 only when hole boundaries count. */
  lemma ExampleWalk(corrected: bool)
    ensures ChunkedFile.Run(EXAMPLE_ENV, Walk([], Store([], []), 2, None, [0]), corrected) ==
            Next(Walk([HOLE, DATA_CHUNK], Store([DATA_CHUNK], [7]), if corrected then 1 else 2, Some(DATA_CHUNK), [7]))
  {
    var e := EXAMPLE_ENV;
    ExampleChunkBits();
    var w0 := Walk([], Store([], []), 2, None, [0]);
    assert NextData(SPARSE_HEAD.data, 1, 2) == Some(1);
    assert ProbeSlot(e, 0) == HoleRun(1);
    var w1 := Walk([HOLE], Store([], []), 2, None, [0]);
    assert HoleStep(e, w0, 1, corrected) == w1;
    assert ChunkedFile.Step(e, w0, corrected) == Next(w1);
    assert ProbeSlot(e, 1) == ReadSlot;
    assert SlotBytes(e, 1) == [7];
    assert Lookup([], ByteDigest([7])).None?;
    assert (0 / 1) % U32_LIMIT == 0;
    assert Padding(1, 1) == 0;
    var noBytes: seq<byte>, noChunks: seq<BlobChunk> := [], [];
    assert noBytes + [7] + seq(0, _ => 0) == [7];
    assert noChunks + [DATA_CHUNK] == [DATA_CHUNK];
    assert GetChunk(Store([], []), [7], ByteDigest, false, 1, WriteIo(true, true)) ==
           (Ok(DATA_CHUNK), Store([DATA_CHUNK], [7]));
    assert Lowbit(1) == 1 by {
      assert Tz(1) == 0;
    }
    var w2 := Walk([HOLE, DATA_CHUNK], Store([DATA_CHUNK], [7]), if corrected then 1 else 2, Some(DATA_CHUNK), [7]);
    assert ReadStep(e, w1, corrected) == Next(w2);
    assert ChunkedFile.Step(e, w1, corrected) == Next(w2);
    assert ChunkedFile.Run(e, w2, corrected) == Next(w2);
    assert ChunkedFile.Run(e, w1, corrected) == Next(w2);
  }

  /** What the writer returns as written: one 2-block chunk whose pointer
      is the hole's, with the data byte stored in the blob. */
  const MERGED_AS_WRITTEN: Chunked := Chunked(1, BLOCK_MAP_ENTRY_SIZE, [HOLE])

  lemma AsWrittenResult()
    ensures WriteChunkedFile(SPARSE_HEAD, ByteDigest, false, 0, 0, 0, Store([], []), false) ==
            (Ok(MERGED_AS_WRITTEN), Store([DATA_CHUNK], [7]))
  {
    ExampleChunkBits();
    ExampleWalk(false);
    assert Ilog2(2) == 1;
    var ino := Chunked(0, 2 * BLOCK_MAP_ENTRY_SIZE, [HOLE, DATA_CHUNK]);
    var r := MergeChunks(ino, 2, 0, 0, 1);
    assert |r.indexes| == 1 && r.indexes[0] == [HOLE, DATA_CHUNK][Stride(0, 2)];
    assert r == MERGED_AS_WRITTEN;
  }

  /** Block 1 holds data but maps to the hole in that index. */
  lemma MergedLosesBlock()
    ensures HasData(SPARSE_HEAD.data, 1)
    ensures Resolve(MERGED_AS_WRITTEN.indexes, BlkBits(MERGED_AS_WRITTEN.format), 1) == None
    ensures !FileReadsBack(EXAMPLE_ENV, [7], MERGED_AS_WRITTEN)
  {
    ExampleChunkBits();
    assert Shr(1, 1) == 0;
    assert !ReadsBack(EXAMPLE_ENV, [7], [HOLE], 1, 1);
  }

  /** As written, the writer succeeds and the file does not read back: the
      data block comes back as a hole. */
  lemma AsWrittenLosesData()
    ensures WriteChunkedFile(SPARSE_HEAD, ByteDigest, false, 0, 0, 0, Store([], []), false).0.Ok?
    ensures !FileReadsBack(EXAMPLE_ENV,
                           WriteChunkedFile(SPARSE_HEAD, ByteDigest, false, 0, 0, 0, Store([], []), false).1.blob,
                           WriteChunkedFile(SPARSE_HEAD, ByteDigest, false, 0, 0, 0, Store([], []), false).0.value)
  {
    AsWrittenResult();
    MergedLosesBlock();
  }

  /** Counting hole boundaries keeps the two one-block chunks, and every
      block reads back. */
  lemma CorrectedKeepsData()
    ensures var r := WriteChunkedFile(SPARSE_HEAD, ByteDigest, false, 0, 0, 0, Store([], []), true);
      && r.0 == Ok(Chunked(0, 2 * BLOCK_MAP_ENTRY_SIZE, [HOLE, DATA_CHUNK]))
      && FileReadsBack(EXAMPLE_ENV, r.1.blob, r.0.value)
  {
    ExampleChunkBits();
    ExampleWalk(true);
    assert Ilog2(1) == 0;
    assert StoreInv(Store([], []), ByteDigest, Pow2(0));
    assert Room(EXAMPLE_ENV, Store([], []));
    ExampleNoCollisions();
    WriteChunkedFileReadsBack(SPARSE_HEAD, ByteDigest, false, 0, 0, 0, Store([], []));
  }

  /** The example's digest tells its two one-byte slots apart. */
  lemma ExampleNoCollisions()
    ensures NoCollisions(EXAMPLE_ENV, Store([], []))
  {
    ExampleChunkBits();
    forall i: nat, j: nat | Stride(i, 1) < 2 && Stride(j, 1) < 2 &&
                  ByteDigest(SlotBytes(EXAMPLE_ENV, i)) == ByteDigest(SlotBytes(EXAMPLE_ENV, j))
      ensures SlotBytes(EXAMPLE_ENV, i) == SlotBytes(EXAMPLE_ENV, j)
    {
      assert SlotBytes(EXAMPLE_ENV, i) == [SPARSE_HEAD.content[i]];
      assert SlotBytes(EXAMPLE_ENV, j) == [SPARSE_HEAD.content[j]];
    }
  }

  /** Every call succeeds except the read of slot 1, which returns -1. */
  function FailSecond(j: nat): ChunkIo
  {
    ChunkIo(false, true, if j == 1 then ReadFailed else ReadWhole, WriteIo(true, true))
  }

  /** Bytes [5, 7], both blocks data, the second read failing. */
  const FAILED_READ: Source := Source([5, 7], [true, true], false, FailSecond, [0])

  const FAILED_ENV: Env := Env(FAILED_READ, ByteDigest, false, 0, 0)

  /** The first block's chunk: byte 5 at block 0 of an empty blob. */
  const FIRST_CHUNK: BlobChunk := BlobChunk(ByteDigest([5]), 0, 1, 0)

  /** The first slot is read and stored; what happens to the second
      depends on whether a failed read is caught. */
  lemma FailedReadFirstSlot(corrected: bool)
    ensures ChunkBitsFor(FAILED_READ, 0, 0) == 0 && NBlocks(FAILED_ENV) == 2
    ensures ChunkedFile.Step(FAILED_ENV, Walk([], Store([], []), 2, None, [0]), corrected) ==
            Next(Walk([FIRST_CHUNK], Store([FIRST_CHUNK], [5]), 2, Some(FIRST_CHUNK), [5]))
  {
    var e := FAILED_ENV;
    assert NextData(FAILED_READ.data, 0, 2) == Some(0);
    assert ProbeSlot(e, 0) == ReadSlot;
    assert SlotBytes(e, 0) == [5];
    assert Lookup([], ByteDigest([5])).None?;
    assert (0 / 1) % U32_LIMIT == 0;
    assert Padding(1, 1) == 0;
    var noBytes: seq<byte>, noChunks: seq<BlobChunk> := [], [];
    assert noBytes + [5] + seq(0, _ => 0) == [5];
    assert noChunks + [FIRST_CHUNK] == [FIRST_CHUNK];
    assert GetChunk(Store([], []), [5], ByteDigest, false, 1, WriteIo(true, true)) ==
           (Ok(FIRST_CHUNK), Store([FIRST_CHUNK], [5]));
  }

  /** As written, the failed read of slot 1 stores the buffer's stale
      byte 5: it dedupes to the first chunk, which is not contiguous with
      itself, so minextblks drops to 1. */
  lemma FailedReadSecondSlot()
    ensures ChunkedFile.Step(FAILED_ENV, Walk([FIRST_CHUNK], Store([FIRST_CHUNK], [5]), 2, Some(FIRST_CHUNK), [5]), false) ==
            Next(Walk([FIRST_CHUNK, FIRST_CHUNK], Store([FIRST_CHUNK], [5]), 1, Some(FIRST_CHUNK), [5]))
  {
    var e := FAILED_ENV;
    FailedReadFirstSlot(false);
    var w1 := Walk([FIRST_CHUNK], Store([FIRST_CHUNK], [5]), 2, Some(FIRST_CHUNK), [5]);
    assert Blksz(e) == 1 && ChunkSize(e) == 1 && Kb(e) == 1 && Stride(1, 1) == 1;
    assert ProbeSlot(e, 1) == ReadSlot by {
      assert NextData(FAILED_READ.data, 1, 2) == Some(1);
    }
    assert Head([5], |SlotBytes(e, 1)|) == [5] by {
      assert |SlotBytes(e, 1)| == 1;
    }
    SecondSlotReuses();
    assert Lowbit(1) == 1 by {
      assert Tz(1) == 0;
    }
    assert Lower(2, Lowbit(Stride(1, Kb(e)))) == 1;
    assert e.src.io(1) == ChunkIo(false, true, ReadFailed, WriteIo(true, true));
    ReusedRead(e, w1, FIRST_CHUNK, Store([FIRST_CHUNK], [5]));
    assert [FIRST_CHUNK] + [FIRST_CHUNK] == [FIRST_CHUNK, FIRST_CHUNK];
    var w2 := Walk([FIRST_CHUNK, FIRST_CHUNK], Store([FIRST_CHUNK], [5]), 1, Some(FIRST_CHUNK), [5]);
    assert ReadStep(e, w1, false) == Next(w2);
    assert ChunkedFile.Step(e, w1, false) == ReadStep(e, w1, false);
  }

  /** A failed read, as written, hashes the buffer's head and moves on. */
  lemma ReusedRead(e: Env, w: Walk, c: BlobChunk, s: Store)
    requires ValidEnv(e) && Stride(|w.indexes|, ChunkSize(e)) < Size(e)
    requires e.src.io(|w.indexes|).read == ReadFailed
    requires GetChunk(w.store, Head(w.buf, |SlotBytes(e, |w.indexes|)|), e.sha, e.extraDevices, Blksz(e),
                      e.src.io(|w.indexes|).write) == (Ok(c), s)
    ensures ReadStep(e, w, false) ==
            Next(Walk(w.indexes + [c], s,
                      if w.last.Some? && Discontinuous(w.last.value, c, Blksz(e))
                      then Lower(w.minext, Lowbit(Stride(|w.indexes|, Kb(e)))) else w.minext,
                      Some(c), Overlay(w.buf, Head(w.buf, |SlotBytes(e, |w.indexes|)|))))
  {
  }

  /** The stale byte hashes to the chunk already stored for slot 0. */
  lemma SecondSlotReuses()
    ensures GetChunk(Store([FIRST_CHUNK], [5]), [5], ByteDigest, false, 1, WriteIo(true, true)) ==
            (Ok(FIRST_CHUNK), Store([FIRST_CHUNK], [5]))
    ensures Discontinuous(FIRST_CHUNK, FIRST_CHUNK, 1)
  {
    assert Lookup([FIRST_CHUNK], ByteDigest([5])) == Some(FIRST_CHUNK);
  }

  /** The whole walk as written: both slots hold the first chunk. */
  lemma FailedReadWalk()
    ensures ChunkedFile.Run(FAILED_ENV, Walk([], Store([], []), 2, None, [0]), false) ==
            Next(Walk([FIRST_CHUNK, FIRST_CHUNK], Store([FIRST_CHUNK], [5]), 1, Some(FIRST_CHUNK), [5]))
  {
    var e := FAILED_ENV;
    FailedReadFirstSlot(false);
    FailedReadSecondSlot();
    var w1 := Walk([FIRST_CHUNK], Store([FIRST_CHUNK], [5]), 2, Some(FIRST_CHUNK), [5]);
    var w2 := Walk([FIRST_CHUNK, FIRST_CHUNK], Store([FIRST_CHUNK], [5]), 1, Some(FIRST_CHUNK), [5]);
    assert ChunkedFile.Run(e, w2, false) == Next(w2);
    assert ChunkedFile.Run(e, w1, false) == Next(w2);
  }

  /** What the writer returns as written: both slots point at byte 5. */
  const STALE_AS_WRITTEN: Chunked := Chunked(0, 2 * BLOCK_MAP_ENTRY_SIZE, [FIRST_CHUNK, FIRST_CHUNK])

  /** As written, the writer succeeds on that file although a read failed,
      and block 1 reads back the first block's byte 5 instead of 7. */
  lemma AsWrittenStoresStale()
    ensures FAILED_READ.io(1).read == ReadFailed
    ensures WriteChunkedFile(FAILED_READ, ByteDigest, false, 0, 0, 0, Store([], []), false) ==
            (Ok(STALE_AS_WRITTEN), Store([FIRST_CHUNK], [5]))
    ensures !FileReadsBack(FAILED_ENV, [5], STALE_AS_WRITTEN)
  {
    StaleResult();
    StaleBlock();
  }

  /** The writer's result on that file, as written. */
  lemma StaleResult()
    ensures WriteChunkedFile(FAILED_READ, ByteDigest, false, 0, 0, 0, Store([], []), false) ==
            (Ok(STALE_AS_WRITTEN), Store([FIRST_CHUNK], [5]))
  {
    FailedReadFirstSlot(false);
    FailedReadWalk();
    assert Ilog2(1) == 0;
    var ino := Chunked(0, 2 * BLOCK_MAP_ENTRY_SIZE, [FIRST_CHUNK, FIRST_CHUNK]);
    assert MergeChunks(ino, 2, 0, 0, 0) == STALE_AS_WRITTEN;
  }

  /** Block 1 of that index resolves to block 0 of the blob, which holds 5. */
  lemma StaleBlock()
    ensures !FileReadsBack(FAILED_ENV, [5], STALE_AS_WRITTEN)
  {
    assert NBlocks(FAILED_ENV) == 2 && Blksz(FAILED_ENV) == 1;
    assert Shr(1, 0) == 1;
    assert Resolve(STALE_AS_WRITTEN.indexes, 0, 1) == Some((0, 0));
    assert !ReadsBack(FAILED_ENV, [5], STALE_AS_WRITTEN.indexes, 0, 1);
  }

  /** Checking for a failed read, the writer stops at slot 1 with EIO. */
  lemma CorrectedFailsRead()
    ensures WriteChunkedFile(FAILED_READ, ByteDigest, false, 0, 0, 0, Store([], []), true) ==
            (Err(-Errno.EIO), Store([FIRST_CHUNK], [5]))
  {
    var e := FAILED_ENV;
    FailedReadFirstSlot(true);
    var w1 := Walk([FIRST_CHUNK], Store([FIRST_CHUNK], [5]), 2, Some(FIRST_CHUNK), [5]);
    assert NextData(FAILED_READ.data, 1, 2) == Some(1);
    assert ProbeSlot(e, 1) == ReadSlot;
    assert ChunkedFile.Step(e, w1, true) == Fail(-Errno.EIO, Store([FIRST_CHUNK], [5]));
    assert ChunkedFile.Run(e, w1, true) == Fail(-Errno.EIO, Store([FIRST_CHUNK], [5]));
  }
}
