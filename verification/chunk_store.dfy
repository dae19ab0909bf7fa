/** The content-addressed chunk store of mkfs (lib/blobchunk.c): each chunk
    of file data is looked up by its SHA-256 digest; a new chunk is appended
    to the data blob at a block-aligned position and padded with zeros to
    the next block boundary, so identical chunks are stored once.

    The digest is an uninterpreted function of the chunk's bytes, and the
    hash table is a sequence of chunks searched with the table's comparison
    function (only digest equality decides a hit). */
module ChunkStore {
  import opened Bits
  import opened Outcomes
  import Errno

  const DIGEST_SIZE: nat := 32

  type Digest = d: seq<byte> | |d| == DIGEST_SIZE witness seq(DIGEST_SIZE, _ => 0)

  /** EROFS_NULL_ADDR: the block address of a hole. */
  const NULL_ADDR: nat := U32_LIMIT - 1

  /** struct erofs_blobchunk. `sizeOrSource` is the union of the chunk size
      (for chunks in the store) and the source offset (for the unhashed
      chunks of tar images). */
  datatype BlobChunk = BlobChunk(digest: Digest, deviceId: nat, sizeOrSource: nat, blkaddr: nat)

  /** The all-zero digest of chunks that were never hashed. */
  function ZeroDigest(): Digest
  {
    seq(DIGEST_SIZE, _ => 0)
  }

  /** erofs_holechunk: the shared chunk every hole points at. */
  const HOLE: BlobChunk := BlobChunk(ZeroDigest(), 0, 0, NULL_ADDR)

  predicate IsHole(c: BlobChunk)
  {
    c.blkaddr == NULL_ADDR
  }

  /** memcmp: the sign of the first differing byte, 0 when equal. */
  function Memcmp(a: seq<byte>, b: seq<byte>): (r: int)
    requires |a| == |b|
    ensures r == 0 <==> a == b
    ensures -1 <= r <= 1
    decreases |a|
  {
    if |a| == 0 then 0
    else if a[0] < b[0] then -1
    else if a[0] > b[0] then 1
    else
      var rest := Memcmp(a[1..], b[1..]);
      assert rest == 0 ==> a == [a[0]] + a[1..] && b == [b[0]] + b[1..];
      rest
  }

  /** memcmp orders byte strings antisymmetrically. */
  lemma {:induction false} MemcmpAntisymmetric(a: seq<byte>, b: seq<byte>)
    requires |a| == |b|
    ensures Memcmp(a, b) == -Memcmp(b, a)
    decreases |a|
  {
    if |a| > 0 && a[0] == b[0] {
      MemcmpAntisymmetric(a[1..], b[1..]);
    }
  }

  /** erofs_blob_hashmap_cmp: compares an entry's digest with the lookup key
      when there is one, else with the other entry's digest. */
  function HashmapCmp(entry: Digest, other: Digest, key: Option<Digest>): (r: int)
    ensures r == 0 <==> entry == (if key.Some? then key.value else other)
  {
    Memcmp(entry, if key.Some? then key.value else other)
  }

  /** The chunks in the hash table, and the blob file's contents. */
  datatype Store = Store(chunks: seq<BlobChunk>, blob: seq<byte>)

  /** hashmap_get_from_hash: the first stored chunk that compares equal to
      the key. */
  function Lookup(chunks: seq<BlobChunk>, key: Digest): (r: Option<BlobChunk>)
    ensures r.None? <==> forall i :: 0 <= i < |chunks| ==> chunks[i].digest != key
    ensures r.Some? ==> r.value in chunks && r.value.digest == key
    decreases |chunks|
  {
    if |chunks| == 0 then None
    else if HashmapCmp(chunks[0].digest, chunks[0].digest, Some(key)) == 0 then Some(chunks[0])
    else
      var r := Lookup(chunks[1..], key);
      assert forall i :: 1 <= i < |chunks| ==> chunks[i] == chunks[1..][i - 1];
      r
  }

  /** Whether the two fwrite calls (the data, then the padding) succeed. */
  datatype WriteIo = WriteIo(dataOk: bool, padOk: bool)

  /** The zero bytes that bring a chunk of `size` bytes up to a block
      boundary. */
  function Padding(size: nat, blksz: nat): (r: nat)
    requires blksz >= 1
    ensures (size + r) % blksz == 0 && r < blksz
  {
    if size % blksz == 0 then 0
    else
      var p := blksz - size % blksz;
      assert size + p == (size / blksz + 1) * blksz;
      MulMod(size / blksz + 1, blksz);
      p
  }

  /** erofs_blob_getchunk. A hit returns the stored chunk and changes
      nothing. A miss records the chunk at the blob's end (its block number,
      truncated to 32 bits like erofs_blk_t, and device 1 when the image has
      extra devices), then writes the data and the zero padding. A failed
      data write leaves the blob as it was; a failed padding write leaves
      the data in it. Either failure inserts nothing and returns -ENOSPC. */
  function GetChunk(s: Store, buf: seq<byte>, sha: seq<byte> -> Digest, extraDevices: bool,
                    blksz: nat, io: WriteIo): (r: (Result<BlobChunk>, Store))
    requires blksz >= 1
    ensures r.0.Err? ==> r.0.code == -Errno.ENOSPC && r.1.chunks == s.chunks
    ensures r.0.Ok? ==> r.0.value.digest == sha(buf)
  {
    var d := sha(buf);
    match Lookup(s.chunks, d)
    case Some(c) => (Ok(c), s)
    case None =>
      var c := BlobChunk(d, if extraDevices then 1 else 0, |buf|, (|s.blob| / blksz) % U32_LIMIT);
      if !io.dataOk then (Err(-Errno.ENOSPC), s)
      else
        var pad := Padding(|buf|, blksz);
        if pad > 0 && !io.padOk then (Err(-Errno.ENOSPC), s.(blob := s.blob + buf))
        else (Ok(c), Store(s.chunks + [c], s.blob + buf + seq(pad, _ => 0)))
  }

  /** The bytes of the blob a chunk refers to. */
  function Extent(blob: seq<byte>, c: BlobChunk, blksz: nat): seq<byte>
    requires c.blkaddr * blksz + c.sizeOrSource <= |blob|
  {
    blob[c.blkaddr * blksz .. c.blkaddr * blksz + c.sizeOrSource]
  }

  /** The store invariant: the blob is whole blocks, addressable in 32 bits;
      no two chunks share a digest; and every chunk's bytes lie in the blob
      and have the chunk's digest. */
  predicate StoreInv(s: Store, sha: seq<byte> -> Digest, blksz: nat)
    requires blksz >= 1
  {
    && |s.blob| % blksz == 0
    && |s.blob| / blksz < U32_LIMIT
    && (forall i, j :: 0 <= i < j < |s.chunks| ==> s.chunks[i].digest != s.chunks[j].digest)
    && (forall i :: 0 <= i < |s.chunks| ==>
          s.chunks[i].blkaddr * blksz + s.chunks[i].sizeOrSource <= |s.blob| &&
          sha(Extent(s.blob, s.chunks[i], blksz)) == s.chunks[i].digest)
  }

  /** A miss places the chunk at the current end of the blob, which is block
      aligned; the blob grows by the data and the padding and stays block
      aligned; the device is 1 exactly when there are extra devices. */
  lemma GetChunkMiss(s: Store, buf: seq<byte>, sha: seq<byte> -> Digest, extraDevices: bool,
                     blksz: nat, io: WriteIo)
    requires blksz >= 1 && |s.blob| % blksz == 0 && |s.blob| / blksz < U32_LIMIT
    requires Lookup(s.chunks, sha(buf)).None?
    requires GetChunk(s, buf, sha, extraDevices, blksz, io).0.Ok?
    ensures var r := GetChunk(s, buf, sha, extraDevices, blksz, io);
      && r.0.value.blkaddr * blksz == |s.blob|
      && (r.0.value.deviceId == 1 <==> extraDevices)
      && r.1.chunks == s.chunks + [r.0.value]
      && r.1.blob == s.blob + buf + seq(Padding(|buf|, blksz), _ => 0)
      && |r.1.blob| % blksz == 0
      && r.0.value.sizeOrSource == |buf|
      && r.1.blob[|s.blob|..|s.blob| + |buf|] == buf
  {
    var r := GetChunk(s, buf, sha, extraDevices, blksz, io);
    AlignedBlockNumber(|s.blob|, blksz);
    var pad := seq(Padding(|buf|, blksz), _ => 0);
    ModAddAligned(|s.blob|, |buf| + |pad|, blksz);
    assert |s.blob + buf + pad| == |s.blob| + (|buf| + |pad|);
    assert (s.blob + buf + pad)[|s.blob|..|s.blob| + |buf|] == buf;
  }

  /** The blob only grows: getchunk appends at most the data and less than
      a block of padding, and what was in the blob stays in place. */
  lemma GetChunkGrows(s: Store, buf: seq<byte>, sha: seq<byte> -> Digest, extraDevices: bool,
                      blksz: nat, io: WriteIo)
    requires blksz >= 1
    ensures var s' := GetChunk(s, buf, sha, extraDevices, blksz, io).1;
      && |s.blob| <= |s'.blob| < |s.blob| + |buf| + blksz
      && s'.blob[..|s.blob|] == s.blob
  {
    var s' := GetChunk(s, buf, sha, extraDevices, blksz, io).1;
    if Lookup(s.chunks, sha(buf)).None? && io.dataOk {
      assert s'.blob[..|s.blob|] == s.blob by {
        if Padding(|buf|, blksz) > 0 && !io.padOk {
          assert s'.blob == s.blob + buf;
        } else {
          assert s'.blob == s.blob + buf + seq(Padding(|buf|, blksz), _ => 0);
        }
      }
    }
  }

  /** The block number of a block-aligned, 32-bit-addressable offset. */
  lemma AlignedBlockNumber(n: nat, blksz: nat)
    requires blksz >= 1 && n % blksz == 0 && n / blksz < U32_LIMIT
    ensures ((n / blksz) % U32_LIMIT) * blksz == n
  {
    assert (n / blksz) % U32_LIMIT == n / blksz;
  }

  /** A hit returns the stored chunk, whose bytes in the blob have the same
      digest as the data being stored, and leaves the store as it was. */
  lemma GetChunkHit(s: Store, buf: seq<byte>, sha: seq<byte> -> Digest, extraDevices: bool,
                    blksz: nat, io: WriteIo)
    requires blksz >= 1 && StoreInv(s, sha, blksz)
    requires Lookup(s.chunks, sha(buf)).Some?
    ensures var r := GetChunk(s, buf, sha, extraDevices, blksz, io);
      && r.0 == Ok(Lookup(s.chunks, sha(buf)).value)
      && r.1 == s
      && r.0.value.blkaddr * blksz + r.0.value.sizeOrSource <= |s.blob|
      && sha(Extent(s.blob, r.0.value, blksz)) == sha(buf)
  {
  }

  /** getchunk keeps the store invariant on success, as long as the blob
      stays addressable by 32-bit block numbers. */
  lemma GetChunkInv(s: Store, buf: seq<byte>, sha: seq<byte> -> Digest, extraDevices: bool,
                    blksz: nat, io: WriteIo)
    requires blksz >= 1 && StoreInv(s, sha, blksz)
    requires (|s.blob| + |buf| + blksz) / blksz < U32_LIMIT
    requires GetChunk(s, buf, sha, extraDevices, blksz, io).0.Ok?
    ensures StoreInv(GetChunk(s, buf, sha, extraDevices, blksz, io).1, sha, blksz)
  {
    if Lookup(s.chunks, sha(buf)).None? {
      GetChunkMiss(s, buf, sha, extraDevices, blksz, io);
      GetChunkGrows(s, buf, sha, extraDevices, blksz, io);
      var r := GetChunk(s, buf, sha, extraDevices, blksz, io);
      var s' := r.1;
      DivMonotone(|s'.blob|, |s.blob| + |buf| + blksz, blksz);
      assert s'.chunks[..|s.chunks|] == s.chunks;
      OldChunksKept(s, s', sha, blksz);
    }
  }

  /** Chunks already stored keep their bytes in a blob that only grew. */
  lemma OldChunksKept(s: Store, s': Store, sha: seq<byte> -> Digest, blksz: nat)
    requires blksz >= 1 && StoreInv(s, sha, blksz)
    requires |s.blob| <= |s'.blob| && s'.blob[..|s.blob|] == s.blob
    requires |s.chunks| <= |s'.chunks| && s'.chunks[..|s.chunks|] == s.chunks
    ensures forall i :: 0 <= i < |s.chunks| ==>
              s'.chunks[i].blkaddr * blksz + s'.chunks[i].sizeOrSource <= |s'.blob| &&
              sha(Extent(s'.blob, s'.chunks[i], blksz)) == s'.chunks[i].digest
  {
    forall i | 0 <= i < |s.chunks|
      ensures s'.chunks[i].blkaddr * blksz + s'.chunks[i].sizeOrSource <= |s'.blob|
      ensures sha(Extent(s'.blob, s'.chunks[i], blksz)) == s'.chunks[i].digest
    {
      var c := s.chunks[i];
      assert s'.chunks[i] == s'.chunks[..|s.chunks|][i];
      PrefixSlice(s.blob, s'.blob, c.blkaddr * blksz, c.blkaddr * blksz + c.sizeOrSource);
    }
  }

  /** A slice that lies in the old blob reads the same from the grown one. */
  lemma PrefixSlice(blob: seq<byte>, blob': seq<byte>, a: nat, b: nat)
    requires |blob| <= |blob'| && blob'[..|blob|] == blob && a <= b <= |blob|
    ensures blob'[a..b] == blob[a..b]
  {
    forall k | a <= k < b
      ensures blob'[k] == blob[k]
    {
      assert blob'[..|blob|][k] == blob'[k];
    }
  }

  lemma DivMonotone(a: nat, b: nat, d: nat)
    requires d >= 1 && a <= b
    ensures a / d <= b / d
  {
    if a / d > b / d {
      assert false by {
        MulMonotone(b / d + 1, a / d, d);
      }
    }
  }

  /** No stored chunk's digest collides with buf's: a stored chunk with
      buf's digest holds exactly buf. */
  predicate NoCollision(s: Store, buf: seq<byte>, sha: seq<byte> -> Digest, blksz: nat)
    requires blksz >= 1 && StoreInv(s, sha, blksz)
  {
    forall i :: 0 <= i < |s.chunks| && s.chunks[i].digest == sha(buf) ==>
      Extent(s.blob, s.chunks[i], blksz) == buf
  }

  /** On success getchunk either leaves the table alone (a hit) or adds the
      chunk it returns (a miss). */
  /** Storing the same bytes again right after a successful store hits the
      chunk just returned, whatever the writes would do, and leaves the
      store as it is. */
  lemma GetChunkIdempotent(s: Store, buf: seq<byte>, sha: seq<byte> -> Digest, extraDevices: bool,
                           blksz: nat, io: WriteIo, io2: WriteIo)
    requires blksz >= 1
    requires GetChunk(s, buf, sha, extraDevices, blksz, io).0.Ok?
    ensures var g := GetChunk(s, buf, sha, extraDevices, blksz, io);
      GetChunk(g.1, buf, sha, extraDevices, blksz, io2) == g
  {
    var g := GetChunk(s, buf, sha, extraDevices, blksz, io);
    if Lookup(s.chunks, sha(buf)).None? {
      var c := g.0.value;
      assert g.1.chunks == s.chunks + [c];
      var found := Lookup(g.1.chunks, sha(buf));
      assert c == g.1.chunks[|s.chunks|];
      var i :| 0 <= i < |g.1.chunks| && g.1.chunks[i] == found.value;
      assert i == |s.chunks|;
    }
  }

  lemma GetChunkTable(s: Store, buf: seq<byte>, sha: seq<byte> -> Digest, extraDevices: bool,
                      blksz: nat, io: WriteIo)
    requires blksz >= 1
    ensures var r := GetChunk(s, buf, sha, extraDevices, blksz, io);
      r.0.Ok? ==> r.1.chunks == s.chunks || r.1.chunks == s.chunks + [r.0.value]
  {
  }

  /** Deduplication is sound when buf's digest collides with no stored
      chunk: the chunk getchunk returns, hit or miss, holds exactly the data
      in the blob. */
  lemma GetChunkSound(s: Store, buf: seq<byte>, sha: seq<byte> -> Digest, extraDevices: bool,
                      blksz: nat, io: WriteIo)
    requires blksz >= 1 && StoreInv(s, sha, blksz)
    requires NoCollision(s, buf, sha, blksz)
    requires GetChunk(s, buf, sha, extraDevices, blksz, io).0.Ok?
    ensures var r := GetChunk(s, buf, sha, extraDevices, blksz, io);
      r.0.value.blkaddr * blksz + r.0.value.sizeOrSource <= |r.1.blob| &&
      Extent(r.1.blob, r.0.value, blksz) == buf
  {
    if Lookup(s.chunks, sha(buf)).None? {
      GetChunkMiss(s, buf, sha, extraDevices, blksz, io);
    } else {
      GetChunkHit(s, buf, sha, extraDevices, blksz, io);
    }
  }
}
