/** Emitting a chunk-based inode's chunk index (erofs_blob_write_chunk_indexes):
    each chunk pointer becomes an on-disk index record holding its block
    address (the hole address, a device-relative address, or an address in
    the primary device remapped by where the data blob lands), and runs of
    physically contiguous chunks are reported as block-list extents.

    Block addresses are 32-bit (erofs_blk_t): sums wrap around. */
module ChunkIndex {
  import opened Bits
  import opened ChunkStore

  /** EROFS_CHUNK_FORMAT_BLKBITS_MASK and EROFS_CHUNK_FORMAT_INDEXES. */
  const BLKBITS_MASK: nat := 0x1F
  const FORMAT_INDEXES: nat := 0x20
  /** sizeof(struct erofs_inode_chunk_index) and EROFS_BLOCK_MAP_ENTRY_SIZE. */
  const CHUNK_INDEX_SIZE: nat := 8
  const BLOCK_MAP_ENTRY_SIZE: nat := 4

  /** The inode's 16-bit chunk format word. Its low five bits (format &
      BLKBITS_MASK) are BlkBits, the rest (format & ~BLKBITS_MASK, shifted
      down) HighBits; the INDEXES flag is the lowest of the high bits. */
  type Format = x: nat | x < 0x1_0000

  function BlkBits(format: Format): nat
  {
    format % (BLKBITS_MASK + 1)
  }

  function HighBits(format: Format): nat
  {
    format / (BLKBITS_MASK + 1)
  }

  predicate HasIndexes(format: Format)
  {
    HighBits(format) % 2 == 1
  }

  /** The size of one index record: full records (with device id) when the
      INDEXES bit is set, bare 4-byte block addresses otherwise. */
  function Unit(format: Format): (u: nat)
    ensures u == CHUNK_INDEX_SIZE || u == BLOCK_MAP_ENTRY_SIZE
    ensures u == CHUNK_INDEX_SIZE <==> HasIndexes(format)
  {
    if HasIndexes(format) then CHUNK_INDEX_SIZE else BLOCK_MAP_ENTRY_SIZE
  }

  /** Blocks per chunk: 2 to the power of the format's low five bits. */
  function ChunkBlocks(format: Format): (r: nat)
    ensures r >= 1
  {
    Pow2(BlkBits(format))
  }

  /** format | EROFS_CHUNK_FORMAT_INDEXES. */
  function WithIndexes(format: Format): (r: Format)
    ensures HasIndexes(r) && BlkBits(r) == BlkBits(format)
    ensures HighBits(r) / 2 == HighBits(format) / 2
    ensures HasIndexes(format) ==> r == format
  {
    if HasIndexes(format) then format else format + FORMAT_INDEXES
  }

  /** format | bits, for bits that fit the low five bits. */
  function OrBlkBits(format: Format, bits: nat): (r: Format)
    requires bits <= BLKBITS_MASK
    ensures HighBits(r) == HighBits(format)
    ensures BlkBits(format) == 0 ==> BlkBits(r) == bits
  {
    assert Pow2(5) == BLKBITS_MASK + 1;
    var h, v := HighBits(format), BitOr(BlkBits(format), bits, 5);
    var r := Pack(h, v, BLKBITS_MASK + 1, 2048);
    DivLower(format, BLKBITS_MASK + 1, 2048);
    r
  }

  /** One on-disk index record (the block-map form keeps only blkaddr). */
  datatype IndexRec = IndexRec(blkaddr: nat, deviceId: nat)

  /** The address a chunk's record holds (a 32-bit field). */
  function Translate(c: BlobChunk, remappedBase: nat): (r: nat)
    ensures r < U32_LIMIT
    ensures IsHole(c) ==> r == NULL_ADDR
    ensures !IsHole(c) && c.deviceId != 0 ==> r == c.blkaddr % U32_LIMIT
    ensures !IsHole(c) && c.deviceId == 0 ==> r == Add32(remappedBase, c.blkaddr)
  {
    if IsHole(c) then NULL_ADDR
    else if c.deviceId != 0 then c.blkaddr % U32_LIMIT
    else Add32(remappedBase, c.blkaddr)
  }

  /** A reported block-list extent: start block, length in blocks, and the
      source offset of its first chunk. */
  datatype Ext = Ext(start: nat, len: nat, source: nat)

  /** The coalescing state: the open extent's start (NULL_ADDR when none is
      open) and end, its source offset, and the extents reported so far. */
  datatype Coalescer = Coalescer(extStart: nat, extEnd: nat, source: nat, trace: seq<Ext>)

  /** The open extent as it is reported (32-bit block arithmetic). */
  function Pending(st: Coalescer): Ext
  {
    Ext(st.extStart, Sub32(st.extEnd % U32_LIMIT, st.extStart % U32_LIMIT), st.source)
  }

  /** One chunk of the loop. A device chunk discards the open extent
      without reporting it. A chunk opens a new extent when none is open or
      it does not start where the open one ends, reporting the open one
      first. The extent end then moves past the chunk (a hole's end wraps
      around from NULL_ADDR). */
  function Step(st: Coalescer, c: BlobChunk, remappedBase: nat, chunkblks: nat): (r: Coalescer)
    ensures r.extEnd == Add32(Translate(c, remappedBase), chunkblks)
  {
    var addr := Translate(c, remappedBase);
    var start := if !IsHole(c) && c.deviceId != 0 then NULL_ADDR else st.extStart;
    var st' :=
      if start == NULL_ADDR || addr != st.extEnd then
        var trace := if start != NULL_ADDR then st.trace + [Pending(st)] else st.trace;
        Coalescer(addr, st.extEnd, c.sizeOrSource, trace)
      else st;
    Coalescer(st'.extStart, Add32(addr, chunkblks), st'.source, st'.trace)
  }

  /** The loop's coalescing over a sequence of chunks. */
  function Fold(st: Coalescer, chunks: seq<BlobChunk>, remappedBase: nat, chunkblks: nat): Coalescer
    decreases |chunks|
  {
    if |chunks| == 0 then st
    else Fold(Step(st, chunks[0], remappedBase, chunkblks), chunks[1..], remappedBase, chunkblks)
  }

  /** Reporting the extent still open at the end. */
  function Close(st: Coalescer): seq<Ext>
  {
    if st.extStart != NULL_ADDR then st.trace + [Pending(st)] else st.trace
  }

  /** erofs_blob_write_chunk_indexes: the records written for the first
      ceil(extent_isize / unit) chunk pointers, and the extents reported. */
  function WriteChunkIndexes(format: Format, extentIsize: nat, chunks: seq<BlobChunk>,
                             remappedBase: nat): (r: (seq<IndexRec>, seq<Ext>))
    requires |chunks| >= CeilDiv(extentIsize, Unit(format))
    ensures |r.0| == CeilDiv(extentIsize, Unit(format))
    ensures forall i :: 0 <= i < |r.0| ==>
              r.0[i] == IndexRec(Translate(chunks[i], remappedBase), chunks[i].deviceId)
  {
    var n := CeilDiv(extentIsize, Unit(format));
    var recs := seq(n, i requires 0 <= i < n => IndexRec(Translate(chunks[i], remappedBase), chunks[i].deviceId));
    (recs, Close(Fold(Coalescer(NULL_ADDR, 0, 0, []), chunks[..n], remappedBase, ChunkBlocks(format))))
  }

  /** With the index size the chunked-file writer sets, count * unit, the
      loop emits one record per chunk. */
  lemma RecordsPerChunk(count: nat, format: Format)
    ensures CeilDiv(count * Unit(format), Unit(format)) == count
  {
    var u := Unit(format);
    MulMod(count, u);
    DivModUnique(count * u + u - 1, u, count, u - 1);
  }

  // ---------------------------------------------------------------------
  // What the reported extents cover, for chunks on the primary device.

  /** The block addresses of n chunks laid end to end from s. */
  function Run(s: nat, n: nat, chunkblks: nat): seq<nat>
  {
    if n == 0 then [] else Run(s, n - 1, chunkblks) + [s + (n - 1) * chunkblks]
  }

  /** The chunk addresses the reported extents cover, in order. */
  function Expand(trace: seq<Ext>, chunkblks: nat): seq<nat>
    requires chunkblks >= 1
  {
    if |trace| == 0 then []
    else
      var e := trace[|trace| - 1];
      Expand(trace[..|trace| - 1], chunkblks) + Run(e.start, e.len / chunkblks, chunkblks)
  }

  /** The addresses of the data (non-hole) chunks, translated. */
  function DataAddrs(chunks: seq<BlobChunk>, remappedBase: nat): seq<nat>
  {
    if |chunks| == 0 then []
    else (if IsHole(chunks[0]) then [] else [Translate(chunks[0], remappedBase)])
         + DataAddrs(chunks[1..], remappedBase)
  }

  /** A primary-device chunk, or a hole, whose translated extent stays
      clear of 32-bit wrap-around and of NULL_ADDR. */
  predicate LocalNoWrap(c: BlobChunk, remappedBase: nat, chunkblks: nat)
  {
    IsHole(c) || (c.deviceId == 0 && remappedBase + c.blkaddr + chunkblks < NULL_ADDR)
  }

  /** The addresses of the open extent. */
  function Open(st: Coalescer, chunkblks: nat): seq<nat>
    requires chunkblks >= 1
  {
    if st.extStart == NULL_ADDR || st.extEnd < st.extStart then []
    else Run(st.extStart, (st.extEnd - st.extStart) / chunkblks, chunkblks)
  }

  /** The open extent is a whole number of chunks, below NULL_ADDR. */
  predicate OpenOk(st: Coalescer, chunkblks: nat)
    requires chunkblks >= 1
  {
    st.extStart != NULL_ADDR ==>
      st.extStart < st.extEnd < NULL_ADDR && (st.extEnd - st.extStart) % chunkblks == 0
  }

  lemma RunGrows(s: nat, n: nat, chunkblks: nat)
    requires chunkblks >= 1
    ensures Run(s, n + 1, chunkblks) == Run(s, n, chunkblks) + [s + n * chunkblks]
  {
  }

  lemma DivStep(x: nat, d: nat)
    requires d >= 1 && x % d == 0
    ensures (x + d) / d == x / d + 1 && (x + d) % d == 0
  {
    DivModUnique(x + d, d, x / d + 1, 0);
  }

  /** Reporting the open extent adds exactly its addresses. */
  lemma FlushCovers(st: Coalescer, chunkblks: nat)
    requires chunkblks >= 1 && OpenOk(st, chunkblks) && st.extStart != NULL_ADDR
    ensures Expand(st.trace + [Pending(st)], chunkblks) == Expand(st.trace, chunkblks) + Open(st, chunkblks)
  {
    var t := st.trace + [Pending(st)];
    assert t[..|t| - 1] == st.trace;
    assert Pending(st).len == st.extEnd - st.extStart;
  }

  /** A freshly opened extent holds one chunk. */
  lemma OpenOne(st: Coalescer, chunkblks: nat)
    requires chunkblks >= 1 && st.extStart != NULL_ADDR && st.extEnd == st.extStart + chunkblks
    ensures Open(st, chunkblks) == [st.extStart]
  {
    DivModUnique(chunkblks, chunkblks, 1, 0);
    assert Run(st.extStart, 1, chunkblks) == [st.extStart + 0 * chunkblks];
  }

  /** Extending the open extent by one chunk at its end. */
  lemma OpenGrows(st: Coalescer, chunkblks: nat, end': nat)
    requires chunkblks >= 1 && OpenOk(st, chunkblks) && st.extStart != NULL_ADDR
    requires end' == st.extEnd + chunkblks
    ensures Open(st.(extEnd := end'), chunkblks) == Open(st, chunkblks) + [st.extEnd]
  {
    var n := (st.extEnd - st.extStart) / chunkblks;
    assert st.extEnd - st.extStart == n * chunkblks;
    DivStep(st.extEnd - st.extStart, chunkblks);
    RunGrows(st.extStart, n, chunkblks);
  }

  /** One step of the loop on a primary-device chunk or hole: what the
      reported and open extents cover grows by exactly the chunk's address
      (nothing for a hole). */
  lemma {:induction false} StepCovers(st: Coalescer, c: BlobChunk, remappedBase: nat, chunkblks: nat)
    requires chunkblks >= 1 && OpenOk(st, chunkblks)
    requires LocalNoWrap(c, remappedBase, chunkblks)
    ensures OpenOk(Step(st, c, remappedBase, chunkblks), chunkblks)
    ensures Covered(Step(st, c, remappedBase, chunkblks), chunkblks) ==
            Covered(st, chunkblks) + (if IsHole(c) then [] else [Translate(c, remappedBase)])
  {
    var r := Step(st, c, remappedBase, chunkblks);
    var addr := Translate(c, remappedBase);
    if IsHole(c) {
      assert r.extStart == NULL_ADDR && Open(r, chunkblks) == [];
      if st.extStart != NULL_ADDR {
        assert r.trace == st.trace + [Pending(st)];
        FlushCovers(st, chunkblks);
      }
    } else {
      assert addr == remappedBase + c.blkaddr;
      if st.extStart != NULL_ADDR && addr == st.extEnd {
        assert r.trace == st.trace && r.extStart == st.extStart;
        assert r == st.(extEnd := r.extEnd);
        OpenGrows(st, chunkblks, r.extEnd);
        assert Open(r, chunkblks) == Open(st.(extEnd := r.extEnd), chunkblks);
        ModAddAligned(st.extEnd - st.extStart, chunkblks, chunkblks);
        assert r.extEnd - r.extStart == (st.extEnd - st.extStart) + chunkblks;
      } else {
        assert r.extStart == addr && r.extEnd == addr + chunkblks;
        OpenOne(r, chunkblks);
        DivModUnique(chunkblks, chunkblks, 1, 0);
        if st.extStart != NULL_ADDR {
          assert r.trace == st.trace + [Pending(st)];
          FlushCovers(st, chunkblks);
        }
      }
    }
  }

  /** What the reported extents and the open one cover together. */
  function Covered(st: Coalescer, chunkblks: nat): seq<nat>
    requires chunkblks >= 1
  {
    Expand(st.trace, chunkblks) + Open(st, chunkblks)
  }

  lemma {:induction false} FoldCovers(st: Coalescer, chunks: seq<BlobChunk>, remappedBase: nat, chunkblks: nat)
    requires chunkblks >= 1 && OpenOk(st, chunkblks)
    requires forall i :: 0 <= i < |chunks| ==> LocalNoWrap(chunks[i], remappedBase, chunkblks)
    ensures OpenOk(Fold(st, chunks, remappedBase, chunkblks), chunkblks)
    ensures Covered(Fold(st, chunks, remappedBase, chunkblks), chunkblks) ==
            Covered(st, chunkblks) + DataAddrs(chunks, remappedBase)
    decreases |chunks|
  {
    if |chunks| == 0 {
      assert DataAddrs(chunks, remappedBase) == [];
    } else {
      var st' := Step(st, chunks[0], remappedBase, chunkblks);
      var rest := chunks[1..];
      var x := if IsHole(chunks[0]) then [] else [Translate(chunks[0], remappedBase)];
      var a, d := Covered(st, chunkblks), DataAddrs(rest, remappedBase);
      assert DataAddrs(chunks, remappedBase) == x + d;
      assert Fold(st, chunks, remappedBase, chunkblks) == Fold(st', rest, remappedBase, chunkblks);
      StepCovers(st, chunks[0], remappedBase, chunkblks);
      assert forall i :: 0 <= i < |rest| ==> LocalNoWrap(rest[i], remappedBase, chunkblks) by {
        assert forall i :: 0 <= i < |rest| ==> rest[i] == chunks[i + 1];
      }
      FoldCovers(st', rest, remappedBase, chunkblks);
      ConcatAssoc(a, x, d);
    }
  }

  lemma ConcatAssoc<T>(a: seq<T>, b: seq<T>, c: seq<T>)
    ensures (a + b) + c == a + (b + c)
  {
  }

  /** For an inode whose chunks all live on the primary device, the extents
      reported cover exactly the data chunks' addresses, in order: every
      data chunk is reported once and holes are never reported. */
  lemma LocalExtentsCoverData(format: Format, extentIsize: nat, chunks: seq<BlobChunk>,
                              remappedBase: nat)
    requires |chunks| == CeilDiv(extentIsize, Unit(format))
    requires forall i :: 0 <= i < |chunks| ==> LocalNoWrap(chunks[i], remappedBase, ChunkBlocks(format))
    ensures Expand(WriteChunkIndexes(format, extentIsize, chunks, remappedBase).1, ChunkBlocks(format))
              == DataAddrs(chunks, remappedBase)
  {
    var cb := ChunkBlocks(format);
    var st0 := Coalescer(NULL_ADDR, 0, 0, []);
    assert chunks[..|chunks|] == chunks;
    FoldCovers(st0, chunks, remappedBase, cb);
    var st := Fold(st0, chunks, remappedBase, cb);
    assert WriteChunkIndexes(format, extentIsize, chunks, remappedBase).1 == Close(st);
    assert Covered(st, cb) == DataAddrs(chunks, remappedBase);
    if st.extStart != NULL_ADDR {
      FlushCovers(st, cb);
    } else {
      assert Open(st, cb) == [];
    }
  }
}
