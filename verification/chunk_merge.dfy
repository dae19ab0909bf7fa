/** Coarsening a chunk-based inode's index (erofs_blob_mergechunks): when
    the file's physical layout allows bigger chunks, the index is resampled
    at the coarser stride and the chunk format bits are re-encoded. */
module ChunkMerge {
  import opened Bits
  import opened Outcomes
  import opened ChunkStore
  import opened ChunkIndex

  /** The clamp every chunk-size computation applies: chunk bits more than
      BLKBITS_MASK above the block bits become blkszbits + BLKBITS_MASK.
      The C test is an unsigned subtraction, so bits below the block bits
      wrap around and are clamped to the maximum as well. */
  function ClampChunkBits(bits: nat, blkszBits: nat): (r: nat)
    ensures blkszBits <= r <= blkszBits + 31
    ensures r == bits <==> blkszBits <= bits <= blkszBits + 31
  {
    if bits < blkszBits || bits - blkszBits > 31 then blkszBits + 31 else bits
  }

  /** The chunk format with its low five bits replaced by chunkbits -
      blkszbits: (chunkbits - blkszbits) | (format & ~BLKBITS_MASK). */
  function EncodeFormat(format: Format, chunkbits: nat, blkszBits: nat): (r: Format)
    requires blkszBits <= chunkbits <= blkszBits + 31
    ensures BlkBits(r) == chunkbits - blkszBits
    ensures HighBits(r) == HighBits(format)
  {
    HighBits(format) * (BLKBITS_MASK + 1) + (chunkbits - blkszBits)
  }

  /** Decoding the re-encoded format gives back the chunk size, and the
      record size is unchanged. */
  lemma EncodeFormatDecodes(format: Format, chunkbits: nat, blkszBits: nat)
    requires blkszBits <= chunkbits <= blkszBits + 31
    ensures ChunkBlocks(EncodeFormat(format, chunkbits, blkszBits)) == Pow2(chunkbits - blkszBits)
    ensures Unit(EncodeFormat(format, chunkbits, blkszBits)) == Unit(format)
  {
  }

  /** A chunk-based inode under construction: its chunk format, the byte
      size of its index, and its chunk pointers (holes are HOLE). */
  datatype Chunked = Chunked(format: Format, extentIsize: nat, indexes: seq<BlobChunk>)

  /** The entry picked for new chunk d lies within the old index: c new
      chunks of k*p bytes and n old chunks of p bytes both cover iSize. */
  lemma {:induction false} ResampleFits(iSize: nat, p: nat, k: nat, c: nat, n: nat, d: nat)
    requires p >= 1 && k >= 1 && d < c
    requires (c - 1) * (k * p) < iSize <= n * p
    ensures d * k < n
  {
    MulMonotone(d, c - 1, k * p);
    assert d * (k * p) == (d * k) * p;
    MulLess(d * k, n, p);
  }

  /** The old index of new entry d, for k old chunks per new one. */
  function Stride(d: nat, k: nat): nat
  {
    d * k
  }

  lemma StrideBound(count: nat, k: nat, n: nat)
    requires count == 0 || (count - 1) * k < n
    ensures forall d: nat :: d < count ==> Stride(d, k) < n
  {
    forall d: nat | d < count
      ensures Stride(d, k) < n
    {
      MulMonotone(d, count - 1, k);
    }
  }

  /** Every k-th entry of indexes, count of them. */
  function Resample(indexes: seq<BlobChunk>, count: nat, k: nat): (r: seq<BlobChunk>)
    requires count == 0 || (count - 1) * k < |indexes|
    ensures |r| == count
    ensures forall d: nat :: d < count ==> Stride(d, k) < |indexes| && r[d] == indexes[Stride(d, k)]
  {
    StrideBound(count, k, |indexes|);
    seq(count, (d: int) requires 0 <= d < count => indexes[Stride(d, k)])
  }

  /** The last entry the merge picks lies within the old index. */
  lemma MergeFits(iSize: nat, chunkbits: nat, newBits: nat, n: nat)
    requires chunkbits < newBits && n >= CeilDiv(iSize, Pow2(chunkbits))
    requires CeilDiv(iSize, Pow2(newBits)) > 0
    ensures (CeilDiv(iSize, Pow2(newBits)) - 1) * Pow2(newBits - chunkbits) < n
  {
    var p, k := Pow2(chunkbits), Pow2(newBits - chunkbits);
    var c := CeilDiv(iSize, Pow2(newBits));
    Pow2Add(newBits - chunkbits, chunkbits);
    assert newBits - chunkbits + chunkbits == newBits;
    assert Pow2(newBits) == k * p;
    MulMonotone(CeilDiv(iSize, p), n, p);
    ResampleFits(iSize, p, k, c, n, c - 1);
  }

  /** The merging branch: chunkbits rise to newBits and the index keeps
      every 2^(newBits - chunkbits)-th pointer. */
  function Coarsen(ino: Chunked, iSize: nat, blkszBits: nat, chunkbits: nat, newBits: nat): (r: Chunked)
    requires blkszBits <= chunkbits < newBits <= blkszBits + 31
    requires |ino.indexes| >= CeilDiv(iSize, Pow2(chunkbits))
    ensures BlkBits(r.format) == newBits - blkszBits
    ensures HighBits(r.format) == HighBits(ino.format)
    ensures |r.indexes| == CeilDiv(iSize, Pow2(newBits))
    ensures r.extentIsize == |r.indexes| * Unit(ino.format)
    ensures forall d: nat :: d < |r.indexes| ==>
              Stride(d, Pow2(newBits - chunkbits)) < |ino.indexes| &&
              r.indexes[d] == ino.indexes[Stride(d, Pow2(newBits - chunkbits))]
  {
    EncodeFormatDecodes(ino.format, newBits, blkszBits);
    var format := EncodeFormat(ino.format, newBits, blkszBits);
    var count := CeilDiv(iSize, Pow2(newBits));
    if count > 0 then
      MergeFits(iSize, chunkbits, newBits, |ino.indexes|);
      Chunked(format, count * Unit(ino.format), Resample(ino.indexes, count, Pow2(newBits - chunkbits)))
    else Chunked(format, 0, [])
  }

  /** erofs_blob_mergechunks: clamp the requested chunk bits; when they are
      not above the current ones only the format is rewritten; otherwise
      keep every 2^(new - old)-th chunk pointer, one per new chunk, and
      shrink the index accordingly. */
  function MergeChunks(ino: Chunked, iSize: nat, blkszBits: nat, chunkbits: nat, newBits: nat): (r: Chunked)
    requires blkszBits <= chunkbits <= blkszBits + 31
    requires |ino.indexes| >= CeilDiv(iSize, Pow2(chunkbits))
    ensures var nb := ClampChunkBits(newBits, blkszBits);
      && HighBits(r.format) == HighBits(ino.format)
      && (chunkbits >= nb ==>
            && BlkBits(r.format) == chunkbits - blkszBits
            && r.indexes == ino.indexes && r.extentIsize == ino.extentIsize)
      && (chunkbits < nb ==>
            && BlkBits(r.format) == nb - blkszBits
            && |r.indexes| == CeilDiv(iSize, Pow2(nb))
            && r.extentIsize == |r.indexes| * Unit(ino.format)
            && forall d: nat :: d < |r.indexes| ==>
                 Stride(d, Pow2(nb - chunkbits)) < |ino.indexes| &&
                 r.indexes[d] == ino.indexes[Stride(d, Pow2(nb - chunkbits))])
  {
    var nb := ClampChunkBits(newBits, blkszBits);
    if chunkbits >= nb then
      EncodeFormatDecodes(ino.format, chunkbits, blkszBits);
      ino.(format := EncodeFormat(ino.format, chunkbits, blkszBits))
    else Coarsen(ino, iSize, blkszBits, chunkbits, nb)
  }

  /** Asking for already clamped bits merges the same way. */
  lemma MergeChunksClamped(ino: Chunked, iSize: nat, blkszBits: nat, chunkbits: nat, newBits: nat)
    requires blkszBits <= chunkbits <= blkszBits + 31
    requires |ino.indexes| >= CeilDiv(iSize, Pow2(chunkbits))
    ensures MergeChunks(ino, iSize, blkszBits, chunkbits, newBits) ==
            MergeChunks(ino, iSize, blkszBits, chunkbits, ClampChunkBits(newBits, blkszBits))
  {
  }

  /** The debug assertion of the merge: when the file spans more than one
      old chunk, merging strictly shrinks the index. */
  lemma MergeShrinks(iSize: nat, chunkbits: nat, newBits: nat)
    requires chunkbits < newBits && iSize > Pow2(chunkbits)
    ensures CeilDiv(iSize, Pow2(newBits)) < CeilDiv(iSize, Pow2(chunkbits))
  {
    Pow2Add(newBits - chunkbits, chunkbits);
    Pow2Monotone(1, newBits - chunkbits);
    CoarserFewer(iSize, Pow2(chunkbits), Pow2(newBits - chunkbits),
                 CeilDiv(iSize, Pow2(newBits)), CeilDiv(iSize, Pow2(chunkbits)));
  }

  /** c chunks of k*p bytes (k >= 2) are fewer than the n >= 2 chunks of p
      bytes covering the same size. */
  lemma {:induction false} CoarserFewer(iSize: nat, p: nat, k: nat, c: nat, n: nat)
    requires p >= 1 && k >= 2 && iSize > p
    requires (c - 1) * (k * p) < iSize <= c * (k * p)
    requires (n - 1) * p < iSize <= n * p
    ensures c < n
  {
    MulLess(1, n, p);
    if c > 0 {
      var a := c - 1;
      MulMonotone(2, k, a);
      MulMonotone(2 * a, k * a, p);
      assert (k * a) * p == a * (k * p);
      MulLess(2 * a, n, p);
    }
  }

  // ---------------------------------------------------------------------
  // What an index maps: the physical block behind each file block.

  /** The device and block behind file block b, for an index whose chunks
      are 2^kbits blocks; None for a hole. */
  function Resolve(indexes: seq<BlobChunk>, kbits: nat, b: nat): Option<(nat, nat)>
    requires Shr(b, kbits) < |indexes|
  {
    var c := indexes[Shr(b, kbits)];
    if IsHole(c) then None else Some((c.deviceId, c.blkaddr + LowBits(b, kbits)))
  }

  /** Chunk cur continues chunk prev on disk: both holes, or both data on
      the same device with cur starting where prev's bytes end. */
  predicate Continues(prev: BlobChunk, cur: BlobChunk, blksz: nat)
  {
    (IsHole(prev) && IsHole(cur)) ||
    (!IsHole(prev) && !IsHole(cur) && prev.deviceId == cur.deviceId &&
     prev.blkaddr * blksz + prev.sizeOrSource == cur.blkaddr * blksz)
  }

  /** Every data chunk but the last is a whole chunk of chunkSize bytes. */
  predicate FullChunks(indexes: seq<BlobChunk>, chunkSize: nat)
  {
    forall j :: 0 <= j < |indexes| - 1 && !IsHole(indexes[j]) ==> indexes[j].sizeOrSource == chunkSize
  }

  /** Every place where indexes stops continuing (chunk i does not continue
      chunk i - 1) is at a multiple of m blocks, for chunks of kb blocks. */
  predicate AlignedBreaks(indexes: seq<BlobChunk>, blksz: nat, kb: nat, m: nat)
  {
    && m >= 1
    && forall i :: 0 < i < |indexes| && !Continues(indexes[i - 1], indexes[i], blksz) ==> (i * kb) % m == 0
  }

  /** A run of continuing whole chunks of kb blocks is one physical run. */
  lemma {:induction false} Chain(indexes: seq<BlobChunk>, s: nat, j: nat, blksz: nat, kb: nat)
    requires blksz >= 1 && s <= j < |indexes|
    requires FullChunks(indexes, kb * blksz)
    requires forall i :: s < i <= j ==> Continues(indexes[i - 1], indexes[i], blksz)
    ensures IsHole(indexes[s]) == IsHole(indexes[j])
    ensures !IsHole(indexes[s]) ==>
              indexes[j].deviceId == indexes[s].deviceId &&
              indexes[j].blkaddr == indexes[s].blkaddr + (j - s) * kb
    decreases j - s
  {
    if s < j {
      Chain(indexes, s, j - 1, blksz, kb);
      var prev, cur := indexes[j - 1], indexes[j];
      assert Continues(prev, cur, blksz);
      if !IsHole(prev) {
        assert prev.blkaddr * blksz + kb * blksz == cur.blkaddr * blksz;
        Distribute(prev.blkaddr, kb, blksz);
        MulCancel(prev.blkaddr + kb, cur.blkaddr, blksz);
        Distribute(j - 1 - s, 1, kb);
      }
    }
  }

  /** Where the old chunk j holding block b sits relative to the new chunk
      d holding it, for old chunks of kb blocks and k old chunks per new
      one. */
  lemma {:induction false} BlockPlacement(b: nat, kb: nat, k: nat, j: nat, o: nat, d: nat, on: nat)
    requires kb >= 1 && k >= 1
    requires b == j * kb + o && o < kb
    requires b == d * (k * kb) + on && on < k * kb
    ensures d * k <= j < d * k + k
    ensures on == (j - d * k) * kb + o
  {
    assert (d * k) * kb == d * (k * kb);
    assert (d * k + k) * kb == d * (k * kb) + k * kb;
    if j < d * k {
      MulMonotone(j + 1, d * k, kb);
      assert false;
    }
    if j >= d * k + k {
      MulMonotone(d * k + k, j, kb);
      assert false;
    }
    assert j * kb == (j - d * k) * kb + (d * k) * kb;
  }

  /** No multiple of the new stride lies strictly between d*k and d*k + k. */
  lemma NoAlignedInside(i: nat, d: nat, k: nat, kb: nat)
    requires k >= 1 && kb >= 1 && d * k < i < d * k + k
    ensures (i * kb) % (k * kb) != 0
  {
    if (i * kb) % (k * kb) == 0 {
      var q := (i * kb) / (k * kb);
      assert i * kb == (q * k) * kb;
      MulCancel(i, q * k, kb);
      if q <= d {
        MulMonotone(q, d, k);
      } else {
        MulMonotone(d + 1, q, k);
      }
    }
  }

  /** A block below the file size lies in one of the file's chunks. */
  lemma {:induction false} BlockInFile(b: nat, iSize: nat, blkszBits: nat, bits: nat, n: nat)
    requires blkszBits <= bits && n == CeilDiv(iSize, Pow2(bits))
    requires b * Pow2(blkszBits) < iSize
    ensures Shr(b, bits - blkszBits) < n
  {
    var blksz, kb := Pow2(blkszBits), Pow2(bits - blkszBits);
    Pow2Split(bits, blkszBits);
    assert n * Pow2(bits) == n * (kb * blksz);
    ShrSplit(b, bits - blkszBits);
    BelowCount(b, Shr(b, bits - blkszBits), LowBits(b, bits - blkszBits), kb, blksz, n, iSize);
  }

  lemma {:induction false} BelowCount(b: nat, j: nat, o: nat, kb: nat, blksz: nat, n: nat, iSize: nat)
    requires kb >= 1 && blksz >= 1 && b == j * kb + o
    requires b * blksz < iSize <= n * (kb * blksz)
    ensures j < n
  {
    MulRotate(n, kb, blksz);
    MulLess(b, n * kb, blksz);
    MulLess(j, n, kb);
  }

  /** Where file block b sits in the old and the new index: old chunk j,
      new chunk d, and j lies among the k old chunks new chunk d replaces. */
  lemma {:induction false} BlockCoords(iSize: nat, blkszBits: nat, chunkbits: nat, newBits: nat,
                                       nOld: nat, nNew: nat, b: nat)
    requires blkszBits <= chunkbits < newBits
    requires nOld == CeilDiv(iSize, Pow2(chunkbits)) && nNew == CeilDiv(iSize, Pow2(newBits))
    requires b * Pow2(blkszBits) < iSize
    ensures var kb, k := Pow2(chunkbits - blkszBits), Pow2(newBits - chunkbits);
      var j, d := Shr(b, chunkbits - blkszBits), Shr(b, newBits - blkszBits);
      && Pow2(newBits - blkszBits) == k * kb
      && j < nOld && d < nNew
      && Stride(d, k) <= j < Stride(d, k) + k
      && LowBits(b, newBits - blkszBits) == (j - Stride(d, k)) * kb + LowBits(b, chunkbits - blkszBits)
  {
    var kb, k := Pow2(chunkbits - blkszBits), Pow2(newBits - chunkbits);
    Pow2Add(newBits - chunkbits, chunkbits - blkszBits);
    assert newBits - chunkbits + (chunkbits - blkszBits) == newBits - blkszBits;
    BlockInFile(b, iSize, blkszBits, chunkbits, nOld);
    BlockInFile(b, iSize, blkszBits, newBits, nNew);
    var j, o := Shr(b, chunkbits - blkszBits), LowBits(b, chunkbits - blkszBits);
    var d, on := Shr(b, newBits - blkszBits), LowBits(b, newBits - blkszBits);
    ShrSplit(b, chunkbits - blkszBits);
    ShrSplit(b, newBits - blkszBits);
    BlockPlacement(b, kb, k, j, o, d, on);
  }

  /** Within the k old chunks that new chunk d replaces, old chunk j
      continues the first one on disk, when every discontinuity lies on a
      multiple of k old chunks. */
  lemma {:induction false} RunFromStride(indexes: seq<BlobChunk>, kb: nat, k: nat, blksz: nat, d: nat, j: nat)
    requires kb >= 1 && k >= 1 && blksz >= 1
    requires FullChunks(indexes, kb * blksz)
    requires AlignedBreaks(indexes, blksz, kb, k * kb)
    requires Stride(d, k) <= j < Stride(d, k) + k && j < |indexes|
    ensures IsHole(indexes[Stride(d, k)]) == IsHole(indexes[j])
    ensures !IsHole(indexes[j]) ==>
              indexes[j].deviceId == indexes[Stride(d, k)].deviceId &&
              indexes[j].blkaddr == indexes[Stride(d, k)].blkaddr + (j - Stride(d, k)) * kb
  {
    var s := Stride(d, k);
    forall i | s < i <= j
      ensures Continues(indexes[i - 1], indexes[i], blksz)
    {
      if !Continues(indexes[i - 1], indexes[i], blksz) {
        NoAlignedInside(i, d, k, kb);
      }
    }
    Chain(indexes, s, j, blksz, kb);
  }

  /** File block b resolves the same way before and after the merge, given
      that every place where the old index stops continuing sits on a new
      chunk boundary. */
  lemma {:induction false} MergeKeepsBlock(ino: Chunked, iSize: nat, blkszBits: nat, chunkbits: nat,
                                           newBits: nat, b: nat)
    requires blkszBits <= chunkbits < newBits <= blkszBits + 31
    requires |ino.indexes| == CeilDiv(iSize, Pow2(chunkbits)) && FullChunks(ino.indexes, Pow2(chunkbits))
    requires AlignedBreaks(ino.indexes, Pow2(blkszBits), Pow2(chunkbits - blkszBits), Pow2(newBits - blkszBits))
    requires b * Pow2(blkszBits) < iSize
    ensures var r := MergeChunks(ino, iSize, blkszBits, chunkbits, newBits);
      && Shr(b, chunkbits - blkszBits) < |ino.indexes|
      && Shr(b, newBits - blkszBits) < |r.indexes|
      && Resolve(r.indexes, newBits - blkszBits, b) == Resolve(ino.indexes, chunkbits - blkszBits, b)
  {
    var r := MergeChunks(ino, iSize, blkszBits, chunkbits, newBits);
    var kb, k, blksz := Pow2(chunkbits - blkszBits), Pow2(newBits - chunkbits), Pow2(blkszBits);
    BlockCoords(iSize, blkszBits, chunkbits, newBits, |ino.indexes|, |r.indexes|, b);
    var j, d := Shr(b, chunkbits - blkszBits), Shr(b, newBits - blkszBits);
    assert r.indexes[d] == ino.indexes[Stride(d, k)];
    Pow2Split(chunkbits, blkszBits);
    RunFromStride(ino.indexes, kb, k, blksz, d, j);
  }

  /** Two indexes map every block of an iSize-byte file the same way. */
  ghost predicate SameMapping(iSize: nat, blksz: nat, idx: seq<BlobChunk>, kbits: nat,
                              idx': seq<BlobChunk>, kbits': nat)
  {
    forall b: nat :: b * blksz < iSize ==>
      && Shr(b, kbits) < |idx|
      && Shr(b, kbits') < |idx'|
      && Resolve(idx', kbits', b) == Resolve(idx, kbits, b)
  }

  /** The merge preserves what the file maps, block by block, whenever the
      discontinuities of the old index are aligned to the new chunk size. */
  lemma MergeKeepsMapping(ino: Chunked, iSize: nat, blkszBits: nat, chunkbits: nat, newBits: nat)
    requires blkszBits <= chunkbits < newBits <= blkszBits + 31
    requires |ino.indexes| == CeilDiv(iSize, Pow2(chunkbits)) && FullChunks(ino.indexes, Pow2(chunkbits))
    requires AlignedBreaks(ino.indexes, Pow2(blkszBits), Pow2(chunkbits - blkszBits), Pow2(newBits - blkszBits))
    ensures SameMapping(iSize, Pow2(blkszBits), ino.indexes, chunkbits - blkszBits,
                        MergeChunks(ino, iSize, blkszBits, chunkbits, newBits).indexes, newBits - blkszBits)
  {
    forall b: nat | b * Pow2(blkszBits) < iSize
      ensures var r := MergeChunks(ino, iSize, blkszBits, chunkbits, newBits);
        && Shr(b, chunkbits - blkszBits) < |ino.indexes|
        && Shr(b, newBits - blkszBits) < |r.indexes|
        && Resolve(r.indexes, newBits - blkszBits, b) == Resolve(ino.indexes, chunkbits - blkszBits, b)
    {
      MergeKeepsBlock(ino, iSize, blkszBits, chunkbits, newBits, b);
    }
  }
}
