/** Chunk placement for files of a tar image (tarerofs_write_chunkes): the
    file's bytes already sit at `dataOffset` of the tar stream, so no data
    is read or hashed. One chunk covers the whole file where the format
    allows, each chunk is an unhashed chunk recording its source offset,
    and block addresses run on contiguously: on device 1 (the tar itself)
    from the block of `dataOffset`, or in the data blob from its current
    end, which then grows by the file size rounded up to a block. */
module TarChunks {
  import opened Bits
  import opened Outcomes
  import opened ChunkStore
  import opened ChunkIndex
  import opened ChunkMerge
  import ChunkedFile

  /** The chunk bits: ilog2(i_size - 1) + 1, at least a block, clamped to
      what the format's five bits can say. */
  function TarChunkBits(iSize: nat, blkszBits: nat): (r: nat)
    ensures blkszBits <= r <= blkszBits + BLKBITS_MASK
    ensures ChunkedFile.WholeFileBits(iSize) <= r || r == blkszBits + BLKBITS_MASK
  {
    var bits := ChunkedFile.WholeFileBits(iSize);
    ClampChunkBits(if bits < blkszBits then blkszBits else bits, blkszBits)
  }

  /** What the call leaves in the inode, and the data blob's new size. */
  datatype TarOut = TarOut(format: Format, extentIsize: nat, indexes: seq<BlobChunk>, datablobSize: nat)

  /** erofs_get_unhashed_chunk: a zeroed chunk with its device, block
      address and source offset. */
  function Unhashed(deviceId: nat, blkaddr: nat, sourceOffset: nat): BlobChunk
  {
    BlobChunk(ZeroDigest(), deviceId, sourceOffset, blkaddr)
  }

  /** The placement loop from byte `pos` on: each chunk takes min(i_size -
      pos, chunksize) bytes; the block address advances by the whole
      blocks in them (32-bit erofs_blk_t) and the source offset by the
      bytes. */
  function Place(iSize: nat, pos: nat, blkaddr: nat, sourceOffset: nat, cs: nat, blksz: nat,
                 deviceId: nat): (r: seq<BlobChunk>)
    requires cs >= 1 && blksz >= 1
    decreases iSize - pos
  {
    if pos >= iSize then []
    else
      [Unhashed(deviceId, blkaddr, sourceOffset)] +
        Place(iSize, pos + Min(iSize - pos, cs), Add32(blkaddr, Min(iSize - pos, cs) / blksz),
              sourceOffset + Min(iSize - pos, cs), cs, blksz, deviceId)
  }

  /** The device the chunks point into: 1, the tar file itself, when extra
      devices are configured, else 0, the image with its data blob. */
  function TarDevice(extraDevices: bool): nat
  {
    if extraDevices then 1 else 0
  }

  /** The byte where the file's data starts on that device: its offset in
      the tar stream, or the current end of the data blob. */
  function TarStart(dataOffset: nat, extraDevices: bool, datablobSize: nat): nat
  {
    if extraDevices then dataOffset else datablobSize
  }

  /** tarerofs_write_chunkes (allocation failure aside). */
  function WriteTarChunks(iSize: nat, dataOffset: nat, blkszBits: nat, extraDevices: bool,
                          format: Format, datablobSize: nat): (r: TarOut)
    ensures extraDevices ==> HasIndexes(r.format) && r.datablobSize == datablobSize
    ensures !extraDevices ==> HighBits(r.format) == HighBits(format) &&
                              r.datablobSize == datablobSize + RoundUp(iSize, Pow2(blkszBits))
    ensures HighBits(r.format) / 2 == HighBits(format) / 2
    ensures BlkBits(format) == 0 ==> BlkBits(r.format) == TarChunkBits(iSize, blkszBits) - blkszBits
    ensures |r.indexes| == CeilDiv(iSize, Pow2(TarChunkBits(iSize, blkszBits)))
    ensures r.extentIsize == |r.indexes| * (if extraDevices then CHUNK_INDEX_SIZE else BLOCK_MAP_ENTRY_SIZE)
  {
    var blksz := Pow2(blkszBits);
    var cb := TarChunkBits(iSize, blkszBits);
    var f := OrBlkBits(format, cb - blkszBits);
    var deviceId := TarDevice(extraDevices);
    var base := Shr(TarStart(dataOffset, extraDevices, datablobSize), blkszBits);
    var indexes := Place(iSize, 0, base % U32_LIMIT, dataOffset, Pow2(cb), blksz, deviceId);
    var unit := if extraDevices then CHUNK_INDEX_SIZE else BLOCK_MAP_ENTRY_SIZE;
    var count := CeilDiv(iSize, Pow2(cb));
    PlaceCount(iSize, 0, base % U32_LIMIT, dataOffset, Pow2(cb), blksz, deviceId);
    TarOut(if extraDevices then WithIndexes(f) else f, count * unit, indexes,
           if extraDevices then datablobSize else datablobSize + RoundUp(iSize, blksz))
  }

  /** The loop makes one chunk per chunksize bytes of what is left. */
  lemma {:induction false} PlaceCount(iSize: nat, pos: nat, blkaddr: nat, sourceOffset: nat, cs: nat,
                                      blksz: nat, deviceId: nat)
    requires cs >= 1 && blksz >= 1 && pos <= iSize
    ensures |Place(iSize, pos, blkaddr, sourceOffset, cs, blksz, deviceId)| == CeilDiv(iSize - pos, cs)
    decreases iSize - pos
  {
    if pos < iSize {
      var len := Min(iSize - pos, cs);
      var next := Add32(blkaddr, len / blksz);
      PlaceCount(iSize, pos + len, next, sourceOffset + len, cs, blksz, deviceId);
      CeilDivStep(iSize - pos, cs, iSize - (pos + len));
    }
  }

  /** ceil(n / cs) is one more than ceil((n - min(n, cs)) / cs) for n > 0. */
  lemma CeilDivStep(n: nat, cs: nat, m: nat)
    requires cs >= 1 && n >= 1 && m == n - Min(n, cs)
    ensures CeilDiv(n, cs) == 1 + CeilDiv(m, cs)
  {
    if n <= cs {
      DivModUnique(n + cs - 1, cs, 1, n - 1);
    } else {
      var m := n - cs;
      assert n + cs - 1 == (m + cs - 1) + cs;
      DivModUnique(n + cs - 1, cs, (m + cs - 1) / cs + 1, (m + cs - 1) % cs);
    }
  }

  /** Chunk i of the loop started at pos: i whole chunks further on, in
      bytes of the source and in blocks (modulo 2^32) of the target. */
  lemma {:induction false} PlaceAt(iSize: nat, pos: nat, blkaddr: nat, sourceOffset: nat, cs: nat,
                                   blksz: nat, kb: nat, deviceId: nat, i: nat)
    requires blksz >= 1 && cs >= 1 && cs / blksz == kb && blkaddr < U32_LIMIT
    requires i < |Place(iSize, pos, blkaddr, sourceOffset, cs, blksz, deviceId)|
    ensures Place(iSize, pos, blkaddr, sourceOffset, cs, blksz, deviceId)[i] ==
            Unhashed(deviceId, (blkaddr + Stride(i, kb)) % U32_LIMIT, sourceOffset + Stride(i, cs))
    decreases i
  {
    var all := Place(iSize, pos, blkaddr, sourceOffset, cs, blksz, deviceId);
    if i == 0 {
      assert all[0] == Unhashed(deviceId, blkaddr, sourceOffset);
      SmallMod(blkaddr);
      assert Stride(0, kb) == 0 && Stride(0, cs) == 0;
    } else {
      NotLastIsFull(iSize, pos, blkaddr, sourceOffset, cs, blksz, deviceId);
      var next := Add32(blkaddr, cs / blksz);
      var rest := Place(iSize, pos + cs, next, sourceOffset + cs, cs, blksz, deviceId);
      assert all[i] == rest[i - 1];
      PlaceAt(iSize, pos + cs, next, sourceOffset + cs, cs, blksz, kb, deviceId, i - 1);
      PlaceStepArith(blkaddr, kb, cs, blksz, i);
    }
  }

  /** One whole chunk further on: kb more blocks (modulo 2^32) and cs more
      bytes. */
  lemma PlaceStepArith(blkaddr: nat, kb: nat, cs: nat, blksz: nat, i: nat)
    requires blksz >= 1 && cs / blksz == kb && i >= 1
    ensures (Add32(blkaddr, cs / blksz) + Stride(i - 1, kb)) % U32_LIMIT == (blkaddr + Stride(i, kb)) % U32_LIMIT
    ensures cs + Stride(i - 1, cs) == Stride(i, cs)
  {
    AddModStep(blkaddr, kb, i - 1);
    Distribute(i - 1, 1, cs);
  }

  /** A chunk with another after it is a whole chunk. */
  lemma NotLastIsFull(iSize: nat, pos: nat, blkaddr: nat, sourceOffset: nat, cs: nat, blksz: nat,
                      deviceId: nat)
    requires cs >= 1 && blksz >= 1
    requires 1 < |Place(iSize, pos, blkaddr, sourceOffset, cs, blksz, deviceId)|
    ensures pos + cs < iSize
    ensures Place(iSize, pos, blkaddr, sourceOffset, cs, blksz, deviceId) ==
            [Unhashed(deviceId, blkaddr, sourceOffset)] +
              Place(iSize, pos + cs, Add32(blkaddr, cs / blksz), sourceOffset + cs, cs, blksz, deviceId)
  {
    if iSize - pos <= cs {
      assert false;
    }
  }

  /** A chunk of kb blocks advances the block address by kb. */
  lemma ChunkBlocks(kb: nat, blksz: nat)
    requires blksz >= 1
    ensures (kb * blksz) / blksz == kb
  {
    DivModUnique(kb * blksz, blksz, kb, 0);
  }

  /** ((a + k) mod 2^32 + j*k) mod 2^32 == (a + (j+1)*k) mod 2^32. */
  lemma AddModStep(a: nat, k: nat, j: nat)
    ensures ((a + k) % U32_LIMIT + j * k) % U32_LIMIT == (a + (j + 1) * k) % U32_LIMIT
  {
    var x := a + k;
    var q, m := x / U32_LIMIT, x % U32_LIMIT;
    Distribute(j, 1, k);
    assert a + (j + 1) * k == q * U32_LIMIT + (m + j * k);
    var y := m + j * k;
    DivModUnique(a + (j + 1) * k, U32_LIMIT, q + y / U32_LIMIT, y % U32_LIMIT);
  }

  /** File block b maps, through its chunk, to block base + b of the
      device, and the chunk's source offset, plus b's blocks into the chunk,
      is where b's bytes sit in the tar stream. */
  ghost predicate PlacedAt(indexes: seq<BlobChunk>, kbits: nat, blksz: nat, deviceId: nat, base: nat,
                           dataOffset: nat, b: nat)
  {
    && Shr(b, kbits) < |indexes|
    && Resolve(indexes, kbits, b) == Some((deviceId, base + b))
    && indexes[Shr(b, kbits)].sizeOrSource + Stride(LowBits(b, kbits), blksz) == dataOffset + Stride(b, blksz)
  }

  /** Every block of the file is placed as PlacedAt says, from the block
      of `start`. */
  ghost predicate TarMaps(r: TarOut, iSize: nat, blkszBits: nat, deviceId: nat, start: nat, dataOffset: nat)
  {
    forall b: nat :: Stride(b, Pow2(blkszBits)) < iSize ==>
      PlacedAt(r.indexes, BlkBits(r.format), Pow2(blkszBits), deviceId, Shr(start, blkszBits), dataOffset, b)
  }

  /** With a block-aligned start (what the source asserts in debug builds)
      and block addresses that stay below the null address, the chunk index
      maps the file onto consecutive device blocks from the block that
      starts at `start`: on device 1 these are the tar stream's own blocks
      holding the file, in the data blob the region just reserved for it. */
  lemma TarMapsContiguously(iSize: nat, dataOffset: nat, blkszBits: nat, extraDevices: bool,
                            format: Format, datablobSize: nat)
    requires BlkBits(format) == 0
    requires TarStart(dataOffset, extraDevices, datablobSize) % Pow2(blkszBits) == 0
    requires Shr(TarStart(dataOffset, extraDevices, datablobSize), blkszBits) +
             CeilDiv(iSize, Pow2(blkszBits)) <= NULL_ADDR
    ensures Stride(Shr(TarStart(dataOffset, extraDevices, datablobSize), blkszBits), Pow2(blkszBits)) ==
            TarStart(dataOffset, extraDevices, datablobSize)
    ensures TarMaps(WriteTarChunks(iSize, dataOffset, blkszBits, extraDevices, format, datablobSize),
                    iSize, blkszBits, TarDevice(extraDevices), TarStart(dataOffset, extraDevices, datablobSize),
                    dataOffset)
  {
    var blksz := Pow2(blkszBits);
    var cb := TarChunkBits(iSize, blkszBits);
    var kbits := cb - blkszBits;
    var start := TarStart(dataOffset, extraDevices, datablobSize);
    var base := Shr(start, blkszBits);
    var dev := TarDevice(extraDevices);
    TarIndexes(iSize, dataOffset, blkszBits, extraDevices, format, datablobSize);
    SmallMod(base);
    PlaceMaps(iSize, base, dataOffset, cb, blkszBits, dev);
    StartBlock(start, blkszBits);
  }

  /** An aligned start is its block number times the block size. */
  lemma StartBlock(start: nat, blkszBits: nat)
    requires start % Pow2(blkszBits) == 0
    ensures Stride(Shr(start, blkszBits), Pow2(blkszBits)) == start
  {
    ShrExact(start, blkszBits);
  }

  /** Every block of the file is placed, by chunk of 2^cb bytes, at its
      consecutive device block. */
  lemma PlaceMaps(iSize: nat, base: nat, dataOffset: nat, cb: nat, blkszBits: nat, dev: nat)
    requires blkszBits <= cb
    requires base + CeilDiv(iSize, Pow2(blkszBits)) <= NULL_ADDR
    ensures forall b: nat :: Stride(b, Pow2(blkszBits)) < iSize ==>
              PlacedAt(Place(iSize, 0, base, dataOffset, Pow2(cb), Pow2(blkszBits), dev), cb - blkszBits,
                       Pow2(blkszBits), dev, base, dataOffset, b)
  {
    var blksz, kbits := Pow2(blkszBits), cb - blkszBits;
    Pow2Split(cb, blkszBits);
    forall b: nat | Stride(b, blksz) < iSize
      ensures PlacedAt(Place(iSize, 0, base, dataOffset, Pow2(cb), blksz, dev), kbits, blksz, dev, base, dataOffset, b)
    {
      PlacedBlock(iSize, base, dataOffset, Pow2(cb), blksz, Pow2(kbits), kbits, dev, b);
    }
  }

  /** What the call leaves in the inode's format and index. */
  lemma TarIndexes(iSize: nat, dataOffset: nat, blkszBits: nat, extraDevices: bool, format: Format,
                   datablobSize: nat)
    requires BlkBits(format) == 0
    ensures BlkBits(WriteTarChunks(iSize, dataOffset, blkszBits, extraDevices, format, datablobSize).format) ==
            TarChunkBits(iSize, blkszBits) - blkszBits
    ensures WriteTarChunks(iSize, dataOffset, blkszBits, extraDevices, format, datablobSize).indexes ==
            Place(iSize, 0, Shr(TarStart(dataOffset, extraDevices, datablobSize), blkszBits) % U32_LIMIT,
                  dataOffset, Pow2(TarChunkBits(iSize, blkszBits)), Pow2(blkszBits), TarDevice(extraDevices))
  {
  }

  lemma SmallMod(x: nat)
    requires x < U32_LIMIT
    ensures x % U32_LIMIT == x
  {
    DivModUnique(x, U32_LIMIT, 0, x);
  }

  /** Block b of a placement from block `base` (well below the null
      address): its chunk exists and is not a hole, it maps b to block
      base + b, and it records where b's bytes come from. */
  lemma PlacedBlock(iSize: nat, base: nat, dataOffset: nat, cs: nat, blksz: nat, kb: nat, kbits: nat,
                    dev: nat, b: nat)
    requires blksz >= 1 && kb == Pow2(kbits) && cs == kb * blksz
    requires base + CeilDiv(iSize, blksz) <= NULL_ADDR && Stride(b, blksz) < iSize
    ensures PlacedAt(Place(iSize, 0, base, dataOffset, cs, blksz, dev), kbits, blksz, dev, base, dataOffset, b)
  {
    var indexes := Place(iSize, 0, base, dataOffset, cs, blksz, dev);
    PlaceCount(iSize, 0, base, dataOffset, cs, blksz, dev);
    ShrSplit(b, kbits);
    var i, l := Shr(b, kbits), LowBits(b, kbits);
    ChunkOfBlock(b, kb, blksz, cs, iSize, i, l);
    ChunkBlocks(kb, blksz);
    MulAtLeast(kb, blksz);
    PlaceAt(iSize, 0, base, dataOffset, cs, blksz, kb, dev, i);
    SmallMod(base + Stride(i, kb));
    var c := indexes[i];
    assert c.blkaddr == base + Stride(i, kb);
    assert c.sizeOrSource == dataOffset + Stride(i, cs);
  }

  /** Block b = i*kb + l is block l of chunk i: chunk i exists, starts at or
      before b, and its bytes begin l blocks before b's. */
  lemma ChunkOfBlock(b: nat, kb: nat, blksz: nat, cs: nat, iSize: nat, i: nat, l: nat)
    requires kb >= 1 && blksz >= 1 && cs == kb * blksz && b == i * kb + l
    requires Stride(b, blksz) < iSize
    ensures i < CeilDiv(iSize, cs) && Stride(i, kb) <= b && b < CeilDiv(iSize, blksz)
    ensures Stride(i, cs) + Stride(l, blksz) == Stride(b, blksz)
  {
    Distribute(i * kb, l, blksz);
    MulRotate(i, kb, blksz);
    if i >= CeilDiv(iSize, cs) {
      MulMonotone(CeilDiv(iSize, cs), i, cs);
    }
    if b >= CeilDiv(iSize, blksz) {
      MulMonotone(CeilDiv(iSize, blksz), b, blksz);
    }
  }
}
