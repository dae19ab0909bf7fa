/** Building a chunk-based inode from a file (erofs_blob_write_chunked_file)
    and from a tar member (tarerofs_write_chunkes).

    The file is walked one chunk slot at a time. SEEK_DATA is modelled at
    block granularity: the file says which of its blocks hold data, and a
    slot without data becomes a hole. Every data slot goes through the
    chunk store; wherever the stored chunks stop being physically
    contiguous, the lowest set bit of the slot's block number bounds how far
    the chunks may later be merged. */
module ChunkedFile {
  import opened Bits
  import opened Outcomes
  import Errno
  import opened ChunkStore
  import opened ChunkIndex
  import opened ChunkMerge

  /** What read() of a slot returns: the whole slot, fewer bytes (end of
      file or an interrupted read), or -1 with the buffer left as it was. */
  datatype ReadResult = ReadWhole | ReadShort | ReadFailed

  /** What the system calls made for one slot report: whether SEEK_DATA
      fails with an error other than ENXIO, whether the SEEK_SET back to the
      chunk start succeeds, what the read returns, and how the chunk
      store's writes go. */
  datatype ChunkIo = ChunkIo(seekDataErr: bool, seekSetOk: bool, read: ReadResult, write: WriteIo)

  /** The file being stored: its bytes; which of its blocks hold data as
      SEEK_DATA sees them (blocks past the end of `data` are holes); whether
      the initial whole-file SEEK_DATA probe fails with an error other than
      ENXIO; the outcome of the calls made for each slot; and the bytes
      malloc() leaves in the chunk buffer, which nothing initialises. */
  datatype Source = Source(content: seq<byte>, data: seq<bool>, probeErr: bool, io: nat -> ChunkIo,
                           initBuf: seq<byte>)

  /** The fixed inputs of one walk: the file, the digest, whether the image
      has extra devices, the block size bits and the chunk bits chosen. */
  datatype Env = Env(src: Source, sha: seq<byte> -> Digest, extraDevices: bool,
                     blkszBits: nat, chunkBits: nat)

  predicate ValidEnv(e: Env)
  {
    e.blkszBits <= e.chunkBits
  }

  function Blksz(e: Env): nat
  {
    Pow2(e.blkszBits)
  }

  function ChunkSize(e: Env): nat
  {
    Pow2(e.chunkBits)
  }

  /** Blocks per chunk. */
  function Kb(e: Env): nat
    requires ValidEnv(e)
  {
    Pow2(e.chunkBits - e.blkszBits)
  }

  function Size(e: Env): nat
  {
    |e.src.content|
  }

  /** The number of blocks of the file, BLK_ROUND_UP(i_size). */
  function NBlocks(e: Env): nat
  {
    CeilDiv(Size(e), Blksz(e))
  }

  predicate HasData(data: seq<bool>, b: nat)
  {
    b < |data| && data[b]
  }

  /** lseek(fd, from, SEEK_DATA) in blocks: the first block at or after
      `from` that holds data, or None (ENXIO). */
  function NextData(data: seq<bool>, from: nat, nblocks: nat): (r: Option<nat>)
    ensures r.Some? ==> from <= r.value < nblocks && HasData(data, r.value)
    ensures forall b :: from <= b < nblocks && (r.None? || b < r.value) ==> !HasData(data, b)
    decreases nblocks - from
  {
    if from >= nblocks then None
    else if HasData(data, from) then Some(from)
    else NextData(data, from + 1, nblocks)
  }

  /** ilog2(size - 1) + 1 on 64-bit values: the chunk bits for one chunk
      holding the whole file. For size 1 the argument is 0, whose ilog2 is
      all ones, so the sum wraps to 0; for size 0 the argument wraps to all
      ones and the result is 64. */
  function WholeFileBits(size: nat): (r: nat)
    ensures size >= 2 ==> r >= 1 && Pow2(r - 1) < size <= Pow2(r)
    ensures size == 1 ==> r == 0
  {
    if size == 0 then 64 else if size == 1 then 0 else Ilog2(size - 1) + 1
  }

  /** The chunk bits: the configured ones, or, for a file with no data at
      all, enough for one chunk (at least a block); then clamped. */
  function ChunkBitsFor(src: Source, blkszBits: nat, cfgBits: nat): (r: nat)
    ensures blkszBits <= r <= blkszBits + BLKBITS_MASK
  {
    var nblocks := CeilDiv(|src.content|, Pow2(blkszBits));
    var sparse := !src.probeErr && NextData(src.data, 0, nblocks).None?;
    var bits := if sparse then (if WholeFileBits(|src.content|) < blkszBits then blkszBits
                                else WholeFileBits(|src.content|))
                else cfgBits;
    ClampChunkBits(bits, blkszBits)
  }

  /** What SEEK_DATA makes of the slot at hand: a run of n hole slots,
      a slot to read, or a failed SEEK_SET. */
  datatype Probe = HoleRun(n: nat) | ReadSlot | SeekFailed

  /** One SEEK_DATA from the start of slot j. ENXIO makes one hole; any
      other error reads the slot; data found inside a later chunk makes a
      hole of every slot before it. Data found off a chunk boundary needs a
      SEEK_SET back to that chunk's start. */
  function ProbeSlot(e: Env, j: nat): (p: Probe)
    requires ValidEnv(e)
    ensures p.HoleRun? ==> p.n >= 1
  {
    var io := e.src.io(j);
    if io.seekDataErr then ReadSlot
    else match NextData(e.src.data, Stride(j, Kb(e)), NBlocks(e))
      case None => HoleRun(1)
      case Some(f) =>
        if f % Kb(e) != 0 && !io.seekSetOk then SeekFailed
        else if f / Kb(e) > j then HoleRun(f / Kb(e) - j)
        else ReadSlot
  }

  /** The state of the walk: the slots so far, the chunk store, the
      smallest extent (in blocks) seen, the previous data chunk of the run
      being walked (NULL after a hole), and the chunk buffer's contents. */
  datatype Walk = Walk(indexes: seq<BlobChunk>, store: Store, minext: nat, last: Option<BlobChunk>,
                       buf: seq<byte>)

  datatype Stepped = Next(w: Walk) | Fail(code: int, store: Store)

  /** The physical break test of the source between consecutive data
      chunks: another device, or cur not starting where prev's bytes end. */
  predicate Discontinuous(prev: BlobChunk, cur: BlobChunk, blksz: nat)
  {
    prev.deviceId != cur.deviceId || prev.blkaddr * blksz + prev.sizeOrSource != cur.blkaddr * blksz
  }

  /** minextblks after a break whose lowest set bit is lb: lowered to lb
      when lb is non-zero and smaller, kept otherwise. */
  function Lower(minext: nat, lb: nat): (r: nat)
    ensures r <= minext && (lb > 0 ==> r <= lb)
    ensures r == minext || r == lb
  {
    if lb > 0 && lb < minext then lb else minext
  }

  /** The bytes of slot j: min(i_size - pos, chunksize) bytes from pos. */
  function SlotBytes(e: Env, j: nat): (r: seq<byte>)
    requires Stride(j, ChunkSize(e)) < Size(e)
    ensures 1 <= |r| <= ChunkSize(e)
  {
    var pos := Stride(j, ChunkSize(e));
    e.src.content[pos..pos + Min(Size(e) - pos, ChunkSize(e))]
  }

  /** The first n bytes of the chunk buffer. A buffer shorter than n reads
      as zero past its end; a Source whose initBuf holds a whole chunk
      never reaches that case. */
  function Head(buf: seq<byte>, n: nat): (r: seq<byte>)
    ensures |r| == n
    ensures forall k :: 0 <= k < n && k < |buf| ==> r[k] == buf[k]
  {
    if n <= |buf| then buf[..n] else buf + seq(n - |buf|, _ => 0)
  }

  /** The chunk buffer after read() copied `bytes` to its start. */
  function Overlay(buf: seq<byte>, bytes: seq<byte>): (r: seq<byte>)
    ensures |r| == if |bytes| < |buf| then |buf| else |bytes|
    ensures r[..|bytes|] == bytes
    ensures forall k :: |bytes| <= k < |buf| ==> r[k] == buf[k]
  {
    if |bytes| < |buf| then bytes + buf[|bytes|..] else bytes
  }

  /** n hole slots from slot j = |w.indexes|. As written a hole records no
      break; with `corrected` a hole after a data chunk does. */
  function HoleStep(e: Env, w: Walk, n: nat, corrected: bool): (r: Walk)
    requires ValidEnv(e)
    ensures r.indexes == w.indexes + seq(n, _ => HOLE) && r.store == w.store && r.last == None
  {
    var j := |w.indexes|;
    var brk := corrected && j > 0 && !IsHole(w.indexes[j - 1]);
    var m := if brk then Lower(w.minext, Lowbit(Stride(j, Kb(e)))) else w.minext;
    Walk(w.indexes + seq(n, _ => HOLE), w.store, m, None, w.buf)
  }

  /** Reading and storing slot j = |w.indexes|. As written, only a data
      chunk that follows a data chunk can record a break; with `corrected`
      every data chunk that does not continue the slot before it does.

      A short read fails with EIO. As written, the int result of read() is
      compared with the unsigned 64-bit length, so -1 converts to 2^64 - 1,
      passes the check, and the stale buffer is stored as the slot's chunk;
      with `corrected` a failed read is an EIO error too. */
  function ReadStep(e: Env, w: Walk, corrected: bool): (r: Stepped)
    requires ValidEnv(e) && Stride(|w.indexes|, ChunkSize(e)) < Size(e)
    ensures r.Next? ==> |r.w.indexes| == |w.indexes| + 1 && r.w.indexes[..|w.indexes|] == w.indexes
    ensures r.Next? ==> e.src.io(|w.indexes|).read.ReadWhole? || !corrected
    ensures e.src.io(|w.indexes|).read.ReadShort? ==> r == Fail(-Errno.EIO, w.store)
  {
    var j := |w.indexes|;
    var io := e.src.io(j);
    var len := |SlotBytes(e, j)|;
    if io.read.ReadShort? || (io.read.ReadFailed? && corrected) then Fail(-Errno.EIO, w.store)
    else
      var bytes := if io.read.ReadWhole? then SlotBytes(e, j) else Head(w.buf, len);
      var (got, s) := GetChunk(w.store, bytes, e.sha, e.extraDevices, Blksz(e), io.write);
      match got
      case Err(code) => Fail(code, s)
      case Ok(c) =>
        var brk := if corrected then j > 0 && !Continues(w.indexes[j - 1], c, Blksz(e))
                   else w.last.Some? && Discontinuous(w.last.value, c, Blksz(e));
        var m := if brk then Lower(w.minext, Lowbit(Stride(j, Kb(e)))) else w.minext;
        Next(Walk(w.indexes + [c], s, m, Some(c), Overlay(w.buf, bytes)))
  }

  /** One turn of the loop, at slot j = |w.indexes|. */
  function Step(e: Env, w: Walk, corrected: bool): (r: Stepped)
    requires ValidEnv(e) && Stride(|w.indexes|, ChunkSize(e)) < Size(e)
    ensures r.Next? ==> |r.w.indexes| > |w.indexes| && r.w.indexes[..|w.indexes|] == w.indexes
  {
    match ProbeSlot(e, |w.indexes|)
    case SeekFailed => Fail(-Errno.EIO, w.store)
    case HoleRun(n) => Next(HoleStep(e, w, n, corrected))
    case ReadSlot =>
      var r := ReadStep(e, w, corrected);
      assert r.Next? ==> r.w.indexes[..|w.indexes|] == w.indexes;
      r
  }

  lemma StrideGrows(n: nat, m: nat, k: nat)
    requires n < m && k >= 1
    ensures Stride(n, k) + k <= Stride(m, k)
  {
    MulMonotone(n + 1, m, k);
  }

  /** The loop over the slots, from the first until the slots cover the
      file's size. */
  function Run(e: Env, w: Walk, corrected: bool): (r: Stepped)
    requires ValidEnv(e)
    ensures r.Next? ==> |r.w.indexes| >= |w.indexes| && r.w.indexes[..|w.indexes|] == w.indexes
    ensures r.Next? ==> Stride(|r.w.indexes|, ChunkSize(e)) >= Size(e)
    decreases Size(e) - Stride(|w.indexes|, ChunkSize(e))
  {
    if Stride(|w.indexes|, ChunkSize(e)) >= Size(e) then Next(w)
    else
      match Step(e, w, corrected)
      case Fail(code, s) => Fail(code, s)
      case Next(w') =>
        StrideGrows(|w.indexes|, |w'.indexes|, ChunkSize(e));
        var r := Run(e, w', corrected);
        assert r.Next? ==> r.w.indexes[..|w.indexes|] == r.w.indexes[..|w'.indexes|][..|w.indexes|];
        r
  }

  /** The new chunk bits the walk allows: ilog2(minextblks) + blkszbits.
      minextblks is 0 only for an empty file; ilog2(0) is all ones and the
      sum wraps below blkszbits, which the merge clamps to the maximum. */
  function MergeBits(minext: nat, blkszBits: nat): nat
  {
    if minext == 0 then blkszBits + BLKBITS_MASK else Ilog2(minext) + blkszBits
  }

  /** Enough slots to cover the file are enough for the merge. */
  lemma CoverCount(n: nat, size: nat, cs: nat)
    requires cs >= 1 && Stride(n, cs) >= size
    ensures n >= CeilDiv(size, cs)
  {
    if size > 0 && n < CeilDiv(size, cs) {
      MulMonotone(n, CeilDiv(size, cs) - 1, cs);
    }
  }

  /** erofs_blob_write_chunked_file. The result is the merged chunk-based
      inode, or the error of the first short read (or, with `corrected`,
      failed read), failing SEEK_SET or failing store write, together with
      the chunk store as the walk left it. As written, a failed read stores
      the chunk buffer's stale contents and goes on. */
  function WriteChunkedFile(src: Source, sha: seq<byte> -> Digest, extraDevices: bool, blkszBits: nat,
                            cfgBits: nat, format: Format, store: Store, corrected: bool): (r: (Result<Chunked>, Store))
    ensures r.0.Ok? ==> HasIndexes(r.0.value.format) == (extraDevices || HasIndexes(format))
  {
    var cb := ChunkBitsFor(src, blkszBits, cfgBits);
    var e := Env(src, sha, extraDevices, blkszBits, cb);
    var f := if extraDevices then WithIndexes(format) else format;
    match Run(e, Walk([], store, NBlocks(e), None, src.initBuf), corrected)
    case Fail(code, s) => (Err(code), s)
    case Next(w) =>
      CoverCount(|w.indexes|, Size(e), ChunkSize(e));
      var ino := Chunked(f, Stride(CeilDiv(Size(e), ChunkSize(e)), Unit(f)), w.indexes);
      (Ok(MergeChunks(ino, Size(e), blkszBits, cb, MergeBits(w.minext, blkszBits))), w.store)
  }

  // ---------------------------------------------------------------------
  // What a hole and a read slot say about the file.

  /** A hole run from slot j covers only blocks without data, and its last
      slot still starts inside the file. */
  lemma ProbeHoles(e: Env, j: nat)
    requires ValidEnv(e) && Stride(j, ChunkSize(e)) < Size(e) && ProbeSlot(e, j).HoleRun?
    ensures Stride(j + ProbeSlot(e, j).n - 1, ChunkSize(e)) < Size(e)
    ensures forall b :: Stride(j, Kb(e)) <= b < Stride(j + ProbeSlot(e, j).n, Kb(e)) && b < NBlocks(e) ==>
              !HasData(e.src.data, b)
  {
    var kb := Kb(e);
    match NextData(e.src.data, Stride(j, kb), NBlocks(e))
    case None =>
    case Some(f) =>
      Pow2Split(e.chunkBits, e.blkszBits);
      HoleRunFits(f, kb, Blksz(e), ChunkSize(e), NBlocks(e), Size(e));
  }

  /** The chunk q holding data block f starts at or before f, and inside
      the file. */
  lemma HoleRunFits(f: nat, kb: nat, blksz: nat, cs: nat, nblocks: nat, size: nat)
    requires kb >= 1 && blksz >= 1 && cs == kb * blksz
    requires f < nblocks && (nblocks - 1) * blksz < size
    ensures Stride(f / kb, kb) <= f
    ensures f / kb >= 1 ==> Stride(f / kb - 1, cs) < size
  {
    var q := f / kb;
    DivLower(f, kb, q);
    MulMonotone(f, nblocks - 1, blksz);
    if q >= 1 {
      MulRotate(q, kb, blksz);
      MulMonotone(q * kb, f, blksz);
      StrideGrows(q - 1, q, cs);
    }
  }

  /** A slot is read only when SEEK_DATA failed or the slot holds data. */
  lemma ProbeReads(e: Env, j: nat)
    requires ValidEnv(e) && ProbeSlot(e, j).ReadSlot?
    ensures e.src.io(j).seekDataErr ||
            exists b :: Stride(j, Kb(e)) <= b < Stride(j, Kb(e)) + Kb(e) && b < NBlocks(e) && HasData(e.src.data, b)
  {
    if !e.src.io(j).seekDataErr {
      var f := NextData(e.src.data, Stride(j, Kb(e)), NBlocks(e)).value;
      DivLower(f, Kb(e), j + 1);
      Distribute(j, 1, Kb(e));
    }
  }

  // ---------------------------------------------------------------------
  // The walk's invariant.

  /** The digest tells apart the byte strings the walk can meet: the
      file's slot buffers among themselves, and each slot buffer from the
      chunks already in the store. (SHA-256 is assumed collision-free on
      these.) */
  ghost predicate NoCollisions(e: Env, s0: Store)
  {
    && (forall i, j ::
          (Stride(i, ChunkSize(e)) < Size(e) && Stride(j, ChunkSize(e)) < Size(e) &&
           e.sha(SlotBytes(e, i)) == e.sha(SlotBytes(e, j)))
          ==> SlotBytes(e, i) == SlotBytes(e, j))
    && (forall k, j ::
          (0 <= k < |s0.chunks| && Stride(j, ChunkSize(e)) < Size(e) &&
           s0.chunks[k].blkaddr * Blksz(e) + s0.chunks[k].sizeOrSource <= |s0.blob| &&
           s0.chunks[k].digest == e.sha(SlotBytes(e, j)))
          ==> Extent(s0.blob, s0.chunks[k], Blksz(e)) == SlotBytes(e, j))
  }

  /** Where the store's chunks come from: the blob keeps the initial one as
      a prefix, and every chunk in the table was there at the start or is a
      data chunk of the walk's index. */
  predicate Provenance(s0: Store, w: Walk)
  {
    && |s0.blob| <= |w.store.blob| && w.store.blob[..|s0.blob|] == s0.blob
    && forall k :: 0 <= k < |w.store.chunks| ==>
         w.store.chunks[k] in s0.chunks || (!IsHole(w.store.chunks[k]) && w.store.chunks[k] in w.indexes)
  }

  /** The blob stays addressable by 32-bit block numbers even if every slot
      stores a new, padded chunk. */
  predicate Room(e: Env, s0: Store)
  {
    (|s0.blob| + Stride(CeilDiv(Size(e), ChunkSize(e)), ChunkSize(e) + Blksz(e))) / Blksz(e) < U32_LIMIT
  }

  /** The blocks of slot i hold no data. */
  predicate EmptySlot(e: Env, i: nat)
    requires ValidEnv(e)
  {
    forall b :: Stride(i, Kb(e)) <= b < Stride(i, Kb(e)) + Kb(e) && b < NBlocks(e) ==> !HasData(e.src.data, b)
  }

  /** Chunk c holds slot i's bytes of the file, stored in the blob. */
  predicate StoredSlot(e: Env, blob: seq<byte>, c: BlobChunk, i: nat)
  {
    var pos := Stride(i, ChunkSize(e));
    && pos < Size(e)
    && c.sizeOrSource == Min(Size(e) - pos, ChunkSize(e))
    && c.blkaddr * Blksz(e) + c.sizeOrSource <= |blob|
    && Extent(blob, c, Blksz(e)) == e.src.content[pos..pos + c.sizeOrSource]
  }

  /** Slot i is a hole over blocks without data, or a chunk whose bytes in
      the blob are the slot's bytes of the file. */
  predicate SlotOk(e: Env, blob: seq<byte>, indexes: seq<BlobChunk>, i: nat)
    requires ValidEnv(e) && i < |indexes|
  {
    if IsHole(indexes[i]) then EmptySlot(e, i)
    else StoredSlot(e, blob, indexes[i], i)
  }

  /** Where the walk records a break before slot i: as written, only
      between two data chunks; with `corrected`, wherever slot i does not
      continue slot i - 1. */
  predicate BreakAt(e: Env, indexes: seq<BlobChunk>, i: nat, corrected: bool)
    requires 0 < i < |indexes|
  {
    if corrected then !Continues(indexes[i - 1], indexes[i], Blksz(e))
    else !IsHole(indexes[i - 1]) && !IsHole(indexes[i]) && Discontinuous(indexes[i - 1], indexes[i], Blksz(e))
  }

  predicate SlotsOk(e: Env, blob: seq<byte>, indexes: seq<BlobChunk>)
    requires ValidEnv(e)
  {
    forall i :: 0 <= i < |indexes| ==> SlotOk(e, blob, indexes, i)
  }

  /** minextblks is at most the lowest set bit of every recorded break. */
  predicate BreaksBounded(e: Env, indexes: seq<BlobChunk>, corrected: bool, minext: nat)
    requires ValidEnv(e)
  {
    forall i :: 0 < i < |indexes| && BreakAt(e, indexes, i, corrected) ==> minext <= Lowbit(Stride(i, Kb(e)))
  }

  /** lastch is the previous slot's chunk when that slot is data. */
  predicate LastOk(w: Walk)
  {
    w.last == (if |w.indexes| > 0 && !IsHole(w.indexes[|w.indexes| - 1])
               then Some(w.indexes[|w.indexes| - 1]) else None)
  }

  /** The walk stores what it reads: it is corrected, or slot j's read
      does not fail. */
  predicate ReadChecked(e: Env, j: nat, corrected: bool)
  {
    corrected || !e.src.io(j).read.ReadFailed?
  }

  /** ReadChecked for every slot. */
  ghost predicate ReadsChecked(e: Env, corrected: bool)
  {
    corrected || forall j: nat :: !e.src.io(j).read.ReadFailed?
  }

  predicate Inv(e: Env, s0: Store, w: Walk, corrected: bool)
    requires ValidEnv(e)
  {
    && StoreInv(w.store, e.sha, Blksz(e))
    && |w.store.blob| <= |s0.blob| + Stride(|w.indexes|, ChunkSize(e) + Blksz(e))
    && (|w.indexes| == 0 || Stride(|w.indexes| - 1, ChunkSize(e)) < Size(e))
    && SlotsOk(e, w.store.blob, w.indexes)
    && LastOk(w)
    && w.minext <= NBlocks(e)
    && (NBlocks(e) > 0 ==> w.minext >= 1)
    && BreaksBounded(e, w.indexes, corrected, w.minext)
  }

  /** A stored chunk with at least one byte inside a 32-bit-addressable
      blob does not sit at the hole address. */
  lemma StoredNotHole(c: BlobChunk, blob: seq<byte>, blksz: nat)
    requires blksz >= 1 && c.sizeOrSource >= 1 && c.blkaddr * blksz + c.sizeOrSource <= |blob|
    requires |blob| % blksz == 0 && |blob| / blksz < U32_LIMIT
    ensures !IsHole(c)
  {
    var m := DivExact(|blob|, blksz);
    DivModUnique(|blob|, blksz, m, 0);
    MulLess(c.blkaddr, m, blksz);
  }

  /** The walk starts with no slots and minextblks = BLK_ROUND_UP(i_size). */
  lemma InitInv(e: Env, s0: Store, buf: seq<byte>, corrected: bool)
    requires ValidEnv(e) && StoreInv(s0, e.sha, Blksz(e))
    ensures Inv(e, s0, Walk([], s0, NBlocks(e), None, buf), corrected)
  {
  }

  lemma HoleStepInv(e: Env, s0: Store, w: Walk, corrected: bool)
    requires ValidEnv(e) && Stride(|w.indexes|, ChunkSize(e)) < Size(e) && Inv(e, s0, w, corrected)
    requires ProbeSlot(e, |w.indexes|).HoleRun?
    ensures Inv(e, s0, HoleStep(e, w, ProbeSlot(e, |w.indexes|).n, corrected), corrected)
  {
    var j := |w.indexes|;
    var n := ProbeSlot(e, j).n;
    ProbeHoles(e, j);
    var w' := HoleStep(e, w, n, corrected);
    StrideGrows(j, j + n, ChunkSize(e) + Blksz(e));
    SlotsHoles(e, w.store.blob, w.indexes, n);
    BreaksHoles(e, w.indexes, n, corrected, w.minext, w'.minext);
  }

  /** Hole slots over blocks without data keep the slots in order. */
  lemma SlotsHoles(e: Env, blob: seq<byte>, indexes: seq<BlobChunk>, n: nat)
    requires ValidEnv(e) && SlotsOk(e, blob, indexes)
    requires forall b :: Stride(|indexes|, Kb(e)) <= b < Stride(|indexes| + n, Kb(e)) && b < NBlocks(e) ==>
               !HasData(e.src.data, b)
    ensures SlotsOk(e, blob, indexes + seq(n, _ => HOLE))
  {
    var j, kb := |indexes|, Kb(e);
    var idx := indexes + seq(n, _ => HOLE);
    forall i | 0 <= i < |idx|
      ensures SlotOk(e, blob, idx, i)
    {
      if i < j {
        assert idx[i] == indexes[i];
        assert SlotOk(e, blob, indexes, i);
      } else {
        assert idx[i] == HOLE;
        MulMonotone(j, i, kb);
        StrideGrows(i, j + n, kb);
      }
    }
  }

  /** After hole slots the only new break is a data-to-hole one at the
      first of them, and only with `corrected`. */
  lemma BreaksHoles(e: Env, indexes: seq<BlobChunk>, n: nat, corrected: bool, m: nat, m': nat)
    requires ValidEnv(e) && m' <= m && BreaksBounded(e, indexes, corrected, m)
    requires corrected && |indexes| > 0 && !IsHole(indexes[|indexes| - 1]) ==>
               m' <= Lowbit(Stride(|indexes|, Kb(e)))
    ensures BreaksBounded(e, indexes + seq(n, _ => HOLE), corrected, m')
  {
    var j := |indexes|;
    var idx := indexes + seq(n, _ => HOLE);
    forall i | 0 < i < |idx| && BreakAt(e, idx, i, corrected)
      ensures m' <= Lowbit(Stride(i, Kb(e)))
    {
      if i < j {
        assert idx[i - 1] == indexes[i - 1] && idx[i] == indexes[i];
        assert BreakAt(e, indexes, i, corrected);
      } else if i > j {
        assert false;
      } else {
        assert idx[i] == HOLE && idx[i - 1] == indexes[j - 1];
      }
    }
  }

  /** The blob stays within Room after the chunk of slot j is stored. */
  lemma RoomStep(blob0: nat, blob: nat, j: nat, len: nat, cs: nat, blksz: nat, size: nat)
    requires blksz >= 1 && cs >= 1 && len <= cs
    requires Stride(j, cs) < size && blob <= blob0 + Stride(j, cs + blksz)
    requires (blob0 + Stride(CeilDiv(size, cs), cs + blksz)) / blksz < U32_LIMIT
    ensures blob + len + blksz <= blob0 + Stride(j + 1, cs + blksz)
    ensures (blob + len + blksz) / blksz < U32_LIMIT
  {
    Distribute(j, 1, cs + blksz);
    if j + 1 > CeilDiv(size, cs) {
      MulMonotone(CeilDiv(size, cs), j, cs);
    }
    MulMonotone(j + 1, CeilDiv(size, cs), cs + blksz);
    DivMonotone(blob + len + blksz, blob0 + Stride(CeilDiv(size, cs), cs + blksz), blksz);
  }

  /** Storing non-empty bytes with a collision-free digest: the chunk holds
      exactly those bytes, outside the hole address, in a blob that only
      grew and keeps the store invariant. */
  lemma StoreChunk(s: Store, buf: seq<byte>, sha: seq<byte> -> Digest, extraDevices: bool,
                   blksz: nat, io: WriteIo)
    requires blksz >= 1 && StoreInv(s, sha, blksz) && NoCollision(s, buf, sha, blksz) && |buf| >= 1
    requires (|s.blob| + |buf| + blksz) / blksz < U32_LIMIT
    ensures var r := GetChunk(s, buf, sha, extraDevices, blksz, io);
      r.0.Ok? ==>
        && StoreInv(r.1, sha, blksz)
        && !IsHole(r.0.value)
        && r.0.value.sizeOrSource == |buf|
        && r.0.value.blkaddr * blksz + |buf| <= |r.1.blob|
        && Extent(r.1.blob, r.0.value, blksz) == buf
        && |s.blob| <= |r.1.blob| < |s.blob| + |buf| + blksz
        && r.1.blob[..|s.blob|] == s.blob
  {
    var r := GetChunk(s, buf, sha, extraDevices, blksz, io);
    GetChunkGrows(s, buf, sha, extraDevices, blksz, io);
    if r.0.Ok? {
      GetChunkInv(s, buf, sha, extraDevices, blksz, io);
      GetChunkSound(s, buf, sha, extraDevices, blksz, io);
      StoredNotHole(r.0.value, r.1.blob, blksz);
    }
  }

  /** Appending a stored chunk to slots that were all in order, over a
      blob that only grew, keeps them all in order. */
  lemma SlotsExtend(e: Env, blob: seq<byte>, blob': seq<byte>, indexes: seq<BlobChunk>, c: BlobChunk)
    requires ValidEnv(e) && |blob| <= |blob'| && blob'[..|blob|] == blob
    requires SlotsOk(e, blob, indexes)
    requires StoredSlot(e, blob', c, |indexes|) && !IsHole(c)
    ensures SlotsOk(e, blob', indexes + [c])
  {
    forall i | 0 <= i < |indexes + [c]|
      ensures SlotOk(e, blob', indexes + [c], i)
    {
      if i < |indexes| {
        var ci := indexes[i];
        assert (indexes + [c])[i] == ci;
        assert SlotOk(e, blob, indexes, i);
        if !IsHole(ci) {
          PrefixSlice(blob, blob', ci.blkaddr * Blksz(e), ci.blkaddr * Blksz(e) + ci.sizeOrSource);
        }
      } else {
        assert (indexes + [c])[i] == c;
      }
    }
  }

  /** Breaks before the appended slot are the old ones. */
  lemma BreaksExtend(e: Env, indexes: seq<BlobChunk>, c: BlobChunk, corrected: bool, m: nat, m': nat)
    requires ValidEnv(e) && m' <= m && BreaksBounded(e, indexes, corrected, m)
    requires |indexes| > 0 && BreakAt(e, indexes + [c], |indexes|, corrected) ==>
               m' <= Lowbit(Stride(|indexes|, Kb(e)))
    ensures BreaksBounded(e, indexes + [c], corrected, m')
  {
    forall i | 0 < i < |indexes + [c]| && BreakAt(e, indexes + [c], i, corrected)
      ensures m' <= Lowbit(Stride(i, Kb(e)))
    {
      if i < |indexes| {
        assert (indexes + [c])[i - 1] == indexes[i - 1] && (indexes + [c])[i] == indexes[i];
        assert BreakAt(e, indexes, i, corrected);
      }
    }
  }

  /** A read slot that goes through appends the stored chunk, with
      lastch set to it and minextblks lowered to the slot's lowest set bit
      at a break. */
  lemma ReadStepShape(e: Env, w: Walk, corrected: bool)
    requires ValidEnv(e) && Stride(|w.indexes|, ChunkSize(e)) < Size(e) && LastOk(w)
    requires ReadChecked(e, |w.indexes|, corrected)
    ensures var j := |w.indexes|;
      var r := ReadStep(e, w, corrected);
      var g := GetChunk(w.store, SlotBytes(e, j), e.sha, e.extraDevices, Blksz(e), e.src.io(j).write);
      r.Next? ==>
        && g.0.Ok?
        && r.w.indexes == w.indexes + [g.0.value] && r.w.store == g.1
        && (!IsHole(g.0.value) ==> LastOk(r.w))
        && r.w.minext <= w.minext
        && (w.minext >= 1 ==> r.w.minext >= 1)
        && (j > 0 && !IsHole(g.0.value) && BreakAt(e, r.w.indexes, j, corrected) ==>
              r.w.minext <= Lowbit(Stride(j, Kb(e))))
  {
    var j := |w.indexes|;
    var r := ReadStep(e, w, corrected);
    if r.Next? && j > 0 {
      assert r.w.indexes[j - 1] == r.w.indexes[..j][j - 1];
    }
  }

  lemma DataStepInv(e: Env, s0: Store, w: Walk, corrected: bool)
    requires ValidEnv(e) && Stride(|w.indexes|, ChunkSize(e)) < Size(e) && Inv(e, s0, w, corrected)
    requires ReadChecked(e, |w.indexes|, corrected)
    requires Room(e, s0)
    requires NoCollision(w.store, SlotBytes(e, |w.indexes|), e.sha, Blksz(e))
    ensures ReadStep(e, w, corrected).Next? ==> Inv(e, s0, ReadStep(e, w, corrected).w, corrected)
  {
    var j, blksz := |w.indexes|, Blksz(e);
    var buf := SlotBytes(e, j);
    var g := GetChunk(w.store, buf, e.sha, e.extraDevices, blksz, e.src.io(j).write);
    var r := ReadStep(e, w, corrected);
    ReadStepShape(e, w, corrected);
    if r.Next? {
      var c := g.0.value;
      RoomStep(|s0.blob|, |w.store.blob|, j, |buf|, ChunkSize(e), blksz, Size(e));
      StoreChunk(w.store, buf, e.sha, e.extraDevices, blksz, e.src.io(j).write);
      SlotStored(e, g.1.blob, c, j);
      SlotsExtend(e, w.store.blob, g.1.blob, w.indexes, c);
      BreaksExtend(e, w.indexes, c, corrected, w.minext, r.w.minext);
    }
  }

  lemma SlotStored(e: Env, blob: seq<byte>, c: BlobChunk, j: nat)
    requires Stride(j, ChunkSize(e)) < Size(e)
    requires c.sizeOrSource == |SlotBytes(e, j)| && c.blkaddr * Blksz(e) + c.sizeOrSource <= |blob|
    requires Extent(blob, c, Blksz(e)) == SlotBytes(e, j)
    ensures StoredSlot(e, blob, c, j)
  {
  }

  lemma StepInv(e: Env, s0: Store, w: Walk, corrected: bool)
    requires ValidEnv(e) && Stride(|w.indexes|, ChunkSize(e)) < Size(e) && Inv(e, s0, w, corrected)
    requires ReadsChecked(e, corrected)
    requires Room(e, s0) && StoreInv(s0, e.sha, Blksz(e)) && NoCollisions(e, s0) && Provenance(s0, w)
    ensures Step(e, w, corrected).Next? ==>
              Inv(e, s0, Step(e, w, corrected).w, corrected) && Provenance(s0, Step(e, w, corrected).w)
  {
    match ProbeSlot(e, |w.indexes|)
    case HoleRun(n) =>
      HoleStepInv(e, s0, w, corrected);
      ProvenanceHoles(s0, w, HoleStep(e, w, n, corrected));
    case ReadSlot =>
      SlotNoCollision(e, s0, w);
      DataStepInv(e, s0, w, corrected);
      ProvenanceRead(e, s0, w, corrected);
    case SeekFailed =>
  }

  /** The slot at hand collides with no chunk in the store. */
  lemma SlotNoCollision(e: Env, s0: Store, w: Walk)
    requires ValidEnv(e) && Stride(|w.indexes|, ChunkSize(e)) < Size(e)
    requires StoreInv(w.store, e.sha, Blksz(e)) && SlotsOk(e, w.store.blob, w.indexes)
    requires StoreInv(s0, e.sha, Blksz(e)) && NoCollisions(e, s0) && Provenance(s0, w)
    ensures NoCollision(w.store, SlotBytes(e, |w.indexes|), e.sha, Blksz(e))
  {
    var j, blksz, blob := |w.indexes|, Blksz(e), w.store.blob;
    forall k | 0 <= k < |w.store.chunks| && w.store.chunks[k].digest == e.sha(SlotBytes(e, j))
      ensures Extent(blob, w.store.chunks[k], blksz) == SlotBytes(e, j)
    {
      var c := w.store.chunks[k];
      if c in s0.chunks {
        InitialChunk(e, s0, blob, c, j);
      } else {
        WalkChunk(e, s0, blob, w.indexes, c, j);
      }
    }
  }

  /** A chunk that was in the store at the start holds the slot's bytes
      if it has their digest. */
  lemma InitialChunk(e: Env, s0: Store, blob: seq<byte>, c: BlobChunk, j: nat)
    requires StoreInv(s0, e.sha, Blksz(e)) && NoCollisions(e, s0) && c in s0.chunks
    requires |s0.blob| <= |blob| && blob[..|s0.blob|] == s0.blob
    requires Stride(j, ChunkSize(e)) < Size(e) && c.digest == e.sha(SlotBytes(e, j))
    ensures c.blkaddr * Blksz(e) + c.sizeOrSource <= |blob|
    ensures Extent(blob, c, Blksz(e)) == SlotBytes(e, j)
  {
    var k :| 0 <= k < |s0.chunks| && s0.chunks[k] == c;
    PrefixSlice(s0.blob, blob, c.blkaddr * Blksz(e), c.blkaddr * Blksz(e) + c.sizeOrSource);
  }

  /** A data chunk of the walk's index holds the slot's bytes if it has
      their digest. */
  lemma WalkChunk(e: Env, s0: Store, blob: seq<byte>, indexes: seq<BlobChunk>, c: BlobChunk, j: nat)
    requires ValidEnv(e) && SlotsOk(e, blob, indexes) && NoCollisions(e, s0)
    requires c in indexes && !IsHole(c)
    requires c.blkaddr * Blksz(e) + c.sizeOrSource <= |blob|
    requires e.sha(Extent(blob, c, Blksz(e))) == c.digest
    requires Stride(j, ChunkSize(e)) < Size(e) && c.digest == e.sha(SlotBytes(e, j))
    ensures Extent(blob, c, Blksz(e)) == SlotBytes(e, j)
  {
    var i :| 0 <= i < |indexes| && indexes[i] == c;
    assert SlotOk(e, blob, indexes, i);
    assert Extent(blob, c, Blksz(e)) == SlotBytes(e, i);
  }

  /** Hole slots leave the store alone. */
  lemma ProvenanceHoles(s0: Store, w: Walk, w': Walk)
    requires Provenance(s0, w) && w'.store == w.store
    requires |w.indexes| <= |w'.indexes| && w'.indexes[..|w.indexes|] == w.indexes
    ensures Provenance(s0, w')
  {
    forall c | c in w.indexes
      ensures c in w'.indexes
    {
      var i :| 0 <= i < |w.indexes| && w.indexes[i] == c;
      assert w'.indexes[i] == w'.indexes[..|w.indexes|][i];
    }
  }

  /** A read slot adds to the table at most the chunk it records. */
  lemma ProvenanceRead(e: Env, s0: Store, w: Walk, corrected: bool)
    requires ValidEnv(e) && Stride(|w.indexes|, ChunkSize(e)) < Size(e) && LastOk(w) && Provenance(s0, w)
    requires ReadChecked(e, |w.indexes|, corrected)
    requires ReadStep(e, w, corrected).Next? ==> !IsHole(ReadStep(e, w, corrected).w.indexes[|w.indexes|])
    ensures ReadStep(e, w, corrected).Next? ==> Provenance(s0, ReadStep(e, w, corrected).w)
  {
    var j := |w.indexes|;
    var buf := SlotBytes(e, j);
    var r := ReadStep(e, w, corrected);
    ReadStepShape(e, w, corrected);
    if r.Next? {
      var g := GetChunk(w.store, buf, e.sha, e.extraDevices, Blksz(e), e.src.io(j).write);
      GetChunkTable(w.store, buf, e.sha, e.extraDevices, Blksz(e), e.src.io(j).write);
      GetChunkGrows(w.store, buf, e.sha, e.extraDevices, Blksz(e), e.src.io(j).write);
      PrefixSlice(w.store.blob, g.1.blob, 0, |s0.blob|);
      assert r.w.indexes[j] == g.0.value;
      ProvenanceHoles(s0, w, w.(indexes := r.w.indexes));
    }
  }

  /** The invariant holds when the loop ends. */
  lemma {:induction false} RunInv(e: Env, s0: Store, w: Walk, corrected: bool)
    requires ValidEnv(e) && Inv(e, s0, w, corrected) && Room(e, s0)
    requires ReadsChecked(e, corrected)
    requires StoreInv(s0, e.sha, Blksz(e)) && NoCollisions(e, s0) && Provenance(s0, w)
    ensures Run(e, w, corrected).Next? ==> Inv(e, s0, Run(e, w, corrected).w, corrected)
    decreases Size(e) - Stride(|w.indexes|, ChunkSize(e))
  {
    if Stride(|w.indexes|, ChunkSize(e)) < Size(e) {
      StepInv(e, s0, w, corrected);
      match Step(e, w, corrected)
      case Fail(_, _) =>
      case Next(w') =>
        StrideGrows(|w.indexes|, |w'.indexes|, ChunkSize(e));
        RunInv(e, s0, w', corrected);
    }
  }

  // ---------------------------------------------------------------------
  // What the finished walk and the merge give.

  /** The slots cover the file exactly: one slot per chunk. */
  lemma CountExact(n: nat, size: nat, cs: nat)
    requires cs >= 1 && Stride(n, cs) >= size && (n == 0 || Stride(n - 1, cs) < size)
    ensures n == CeilDiv(size, cs)
  {
    CoverCount(n, size, cs);
    if n > CeilDiv(size, cs) {
      MulMonotone(CeilDiv(size, cs), n - 1, cs);
    }
  }

  /** Every data slot but the last holds a whole chunk. */
  lemma SlotsFull(e: Env, blob: seq<byte>, indexes: seq<BlobChunk>)
    requires ValidEnv(e) && SlotsOk(e, blob, indexes)
    requires |indexes| == 0 || Stride(|indexes| - 1, ChunkSize(e)) < Size(e)
    ensures FullChunks(indexes, ChunkSize(e))
  {
    forall j | 0 <= j < |indexes| - 1 && !IsHole(indexes[j])
      ensures indexes[j].sizeOrSource == ChunkSize(e)
    {
      assert SlotOk(e, blob, indexes, j);
      StrideGrows(j, |indexes| - 1, ChunkSize(e));
    }
  }

  /** A block below the file size: b * blksz < i_size. */
  lemma BlockBelowSize(b: nat, size: nat, blksz: nat)
    requires blksz >= 1 && b < CeilDiv(size, blksz)
    ensures b * blksz < size
  {
    MulMonotone(b, CeilDiv(size, blksz) - 1, blksz);
  }

  /** Every recorded break sits on a multiple of 2^(new - old) chunks when
      the new chunk bits come from minextblks. */
  lemma BreaksAligned(e: Env, indexes: seq<BlobChunk>, minext: nat)
    requires ValidEnv(e) && BreaksBounded(e, indexes, true, minext) && minext >= 1
    ensures var nb := ClampChunkBits(MergeBits(minext, e.blkszBits), e.blkszBits);
      AlignedBreaks(indexes, Blksz(e), Kb(e), Pow2(nb - e.blkszBits))
  {
    var nb := ClampChunkBits(MergeBits(minext, e.blkszBits), e.blkszBits);
    var a := nb - e.blkszBits;
    Pow2Monotone(a, Ilog2(minext));
    assert Pow2(a) <= minext;
    forall i | 0 < i < |indexes| && !Continues(indexes[i - 1], indexes[i], Blksz(e))
      ensures (i * Kb(e)) % Pow2(a) == 0
    {
      assert BreakAt(e, indexes, i, true);
      BreakDivides(i, Kb(e), a, minext);
    }
  }

  /** A break at slot i with minext <= lowbit(i * kb) sits on a multiple of
      every power of two up to minext. */
  lemma BreakDivides(i: nat, kb: nat, a: nat, minext: nat)
    requires i >= 1 && kb >= 1 && Pow2(a) <= minext <= Lowbit(Stride(i, kb))
    ensures (i * kb) % Pow2(a) == 0
  {
    MulAtLeast(i, kb);
    LowbitDivides(Stride(i, kb), a);
  }

  /** s[a..a+len][x..x+n] is s[a+x..a+x+n]. */
  lemma SubSlice(s: seq<byte>, a: nat, len: nat, x: nat, n: nat)
    requires a + len <= |s| && x + n <= len
    ensures s[a..a + len][x..x + n] == s[a + x..a + x + n]
  {
    var t, u := s[a..a + len][x..x + n], s[a + x..a + x + n];
    forall k | 0 <= k < n
      ensures t[k] == u[k]
    {
    }
    assert t == u;
  }

  /** Block b = j*kb + o of the file lies at byte o*blksz of slot j, and all
      of its bytes lie in the slot. */
  lemma BlockInSlot(b: nat, j: nat, o: nat, kb: nat, blksz: nat, cs: nat, size: nat)
    requires kb >= 1 && blksz >= 1 && cs == kb * blksz && o < kb
    requires b == j * kb + o && b * blksz < size
    ensures b * blksz == Stride(j, cs) + o * blksz
    ensures o * blksz + Min(size - b * blksz, blksz) <= Min(size - Stride(j, cs), cs)
  {
    Distribute(j * kb, o, blksz);
    MulRotate(j, kb, blksz);
    MulMonotone(o + 1, kb, blksz);
    Distribute(o, 1, blksz);
  }

  /** Every byte is zero. */
  predicate AllZero(s: seq<byte>)
  {
    forall k :: 0 <= k < |s| ==> s[k] == 0
  }

  /** The bytes of block b of the file (the last block may be short). */
  function BlockOf(content: seq<byte>, blksz: nat, b: nat): (r: seq<byte>)
    requires b * blksz < |content|
    ensures |r| == Min(|content| - b * blksz, blksz)
  {
    content[b * blksz..b * blksz + Min(|content| - b * blksz, blksz)]
  }

  /** What SEEK_DATA promises about a file: a block it does not report as
      data reads as zeros. */
  ghost predicate HolesZero(src: Source, blksz: nat)
  {
    forall b: nat :: b * blksz < |src.content| && !HasData(src.data, b) ==> AllZero(BlockOf(src.content, blksz, b))
  }

  /** Reading file block b through an index of 2^kbits-block chunks gives
      the file back: a block that maps to a hole is a block of zeros without
      data, and a block that maps to an address has the file's bytes of
      that block there in the blob. */
  ghost predicate ReadsBack(e: Env, blob: seq<byte>, indexes: seq<BlobChunk>, kbits: nat, b: nat)
    requires Shr(b, kbits) < |indexes| && b * Blksz(e) < Size(e)
  {
    BlockBack(e.src.content, e.src.data, blob, Blksz(e), Resolve(indexes, kbits, b), b)
  }

  /** Block b of a file read through address `at`: a zero block without
      data for None, the block's bytes at that block of the blob otherwise. */
  ghost predicate BlockBack(content: seq<byte>, data: seq<bool>, blob: seq<byte>, blksz: nat,
                            at: Option<(nat, nat)>, b: nat)
    requires b * blksz < |content|
  {
    var n := Min(|content| - b * blksz, blksz);
    match at
    case None => !HasData(data, b) && AllZero(BlockOf(content, blksz, b))
    case Some((_, addr)) =>
      && addr * blksz + n <= |blob|
      && blob[addr * blksz..addr * blksz + n] == content[b * blksz..b * blksz + n]
  }

  /** The bytes of block b = j*kb + o sit at block addr + o of the blob
      when slot j's bytes sit at block addr. */
  lemma DataBlockReadsBack(blob: seq<byte>, content: seq<byte>, data: seq<bool>, dev: nat, addr: nat,
                           size: nat, b: nat, j: nat, o: nat, kb: nat, blksz: nat, cs: nat)
    requires kb >= 1 && blksz >= 1 && cs == kb * blksz && o < kb
    requires b == j * kb + o && b * blksz < |content| && Stride(j, cs) < |content|
    requires size == Min(|content| - Stride(j, cs), cs)
    requires addr * blksz + size <= |blob|
    requires blob[addr * blksz..addr * blksz + size] == content[Stride(j, cs)..Stride(j, cs) + size]
    ensures BlockBack(content, data, blob, blksz, Some((dev, addr + o)), b)
  {
    BlockInSlot(b, j, o, kb, blksz, cs, |content|);
    Distribute(addr, o, blksz);
    SliceAt(blob, content, Stride(addr, blksz), Stride(j, cs), size, Stride(o, blksz), Min(|content| - b * blksz, blksz));
  }

  /** Equal slices agree on every sub-slice. */
  lemma SliceAt(blob: seq<byte>, content: seq<byte>, at: nat, pos: nat, size: nat, off: nat, n: nat)
    requires at + size <= |blob| && pos + size <= |content| && off + n <= size
    requires blob[at..at + size] == content[pos..pos + size]
    ensures blob[at + off..at + off + n] == content[pos + off..pos + off + n]
  {
    SubSlice(blob, at, size, off, n);
    SubSlice(content, pos, size, off, n);
  }

  /** The walk's own index reads every block back. */
  lemma SlotsReadBack(e: Env, blob: seq<byte>, indexes: seq<BlobChunk>, b: nat)
    requires ValidEnv(e) && SlotsOk(e, blob, indexes) && HolesZero(e.src, Blksz(e))
    requires b < NBlocks(e) && Shr(b, e.chunkBits - e.blkszBits) < |indexes|
    ensures b * Blksz(e) < Size(e)
    ensures ReadsBack(e, blob, indexes, e.chunkBits - e.blkszBits, b)
  {
    var kbits, blksz := e.chunkBits - e.blkszBits, Blksz(e);
    BlockBelowSize(b, Size(e), blksz);
    var j, o := Shr(b, kbits), LowBits(b, kbits);
    ShrSplit(b, kbits);
    assert SlotOk(e, blob, indexes, j);
    var c := indexes[j];
    if IsHole(c) {
      assert EmptySlot(e, j);
      assert Stride(j, Kb(e)) <= b < Stride(j, Kb(e)) + Kb(e);
      assert Resolve(indexes, kbits, b) == None;
    } else {
      Pow2Split(e.chunkBits, e.blkszBits);
      assert StoredSlot(e, blob, c, j);
      assert Resolve(indexes, kbits, b) == Some((c.deviceId, c.blkaddr + o));
      DataBlockReadsBack(blob, e.src.content, e.src.data, c.deviceId, c.blkaddr, c.sizeOrSource,
                         b, j, o, Kb(e), blksz, ChunkSize(e));
    }
  }

  /** Every block of the file reads back through chunked inode c. */
  ghost predicate FileReadsBack(e: Env, blob: seq<byte>, c: Chunked)
  {
    forall b: nat :: b < NBlocks(e) ==>
      && b * Blksz(e) < Size(e)
      && Shr(b, BlkBits(c.format)) < |c.indexes|
      && ReadsBack(e, blob, c.indexes, BlkBits(c.format), b)
  }

  /** The merge the writer ends with keeps the walk's mapping when
      discontinuities include hole boundaries. */
  lemma MergeMapping(e: Env, s0: Store, w: Walk, f: Format)
    requires ValidEnv(e) && e.chunkBits <= e.blkszBits + 31
    requires Inv(e, s0, w, true) && |w.indexes| == CeilDiv(Size(e), ChunkSize(e))
    ensures var r := MergeChunks(Chunked(f, Stride(CeilDiv(Size(e), ChunkSize(e)), Unit(f)), w.indexes),
                                 Size(e), e.blkszBits, e.chunkBits, MergeBits(w.minext, e.blkszBits));
      SameMapping(Size(e), Blksz(e), w.indexes, e.chunkBits - e.blkszBits, r.indexes, BlkBits(r.format))
  {
    var bsb, cb := e.blkszBits, e.chunkBits;
    var ino := Chunked(f, Stride(CeilDiv(Size(e), ChunkSize(e)), Unit(f)), w.indexes);
    var nb := ClampChunkBits(MergeBits(w.minext, bsb), bsb);
    MergeChunksClamped(ino, Size(e), bsb, cb, MergeBits(w.minext, bsb));
    if cb < nb && Size(e) > 0 {
      MergeCase(e, w.store.blob, w.indexes, w.minext, f);
    } else {
      NoMergeCase(e, w.indexes, ino, nb);
    }
  }

  /** Without a merge the index stays as it is (or the file is empty). */
  lemma NoMergeCase(e: Env, indexes: seq<BlobChunk>, ino: Chunked, nb: nat)
    requires ValidEnv(e) && e.chunkBits <= e.blkszBits + 31 && e.blkszBits <= nb <= e.blkszBits + 31
    requires ino.indexes == indexes && |indexes| == CeilDiv(Size(e), ChunkSize(e))
    requires e.chunkBits < nb ==> Size(e) == 0
    ensures var r := MergeChunks(ino, Size(e), e.blkszBits, e.chunkBits, nb);
      SameMapping(Size(e), Blksz(e), indexes, e.chunkBits - e.blkszBits, r.indexes, BlkBits(r.format))
  {
    forall b: nat | b * Blksz(e) < Size(e)
      ensures Shr(b, e.chunkBits - e.blkszBits) < |indexes|
    {
      BlockInFile(b, Size(e), e.blkszBits, e.chunkBits, |indexes|);
    }
  }

  /** With a merge, the aligned breaks make it keep every block's mapping. */
  lemma MergeCase(e: Env, blob: seq<byte>, indexes: seq<BlobChunk>, minext: nat, f: Format)
    requires ValidEnv(e) && e.chunkBits <= e.blkszBits + 31
    requires SlotsOk(e, blob, indexes) && BreaksBounded(e, indexes, true, minext)
    requires Size(e) > 0 && (NBlocks(e) > 0 ==> minext >= 1)
    requires |indexes| == CeilDiv(Size(e), ChunkSize(e)) && (|indexes| == 0 || Stride(|indexes| - 1, ChunkSize(e)) < Size(e))
    requires e.chunkBits < ClampChunkBits(MergeBits(minext, e.blkszBits), e.blkszBits)
    ensures var nb := ClampChunkBits(MergeBits(minext, e.blkszBits), e.blkszBits);
      var r := MergeChunks(Chunked(f, Stride(CeilDiv(Size(e), ChunkSize(e)), Unit(f)), indexes),
                           Size(e), e.blkszBits, e.chunkBits, nb);
      SameMapping(Size(e), Blksz(e), indexes, e.chunkBits - e.blkszBits, r.indexes, BlkBits(r.format))
  {
    var nb := ClampChunkBits(MergeBits(minext, e.blkszBits), e.blkszBits);
    assert NBlocks(e) > 0 by {
      if NBlocks(e) == 0 {
        assert false;
      }
    }
    SlotsFull(e, blob, indexes);
    BreaksAligned(e, indexes, minext);
    MergeKeepsMapping(Chunked(f, Stride(CeilDiv(Size(e), ChunkSize(e)), Unit(f)), indexes),
                      Size(e), e.blkszBits, e.chunkBits, nb);
  }

  /** A block read back through one index reads back through any index
      that maps it the same way. */
  lemma ReadsBackSame(e: Env, blob: seq<byte>, idx: seq<BlobChunk>, kbits: nat, idx': seq<BlobChunk>,
                      kbits': nat, b: nat)
    requires b * Blksz(e) < Size(e) && Shr(b, kbits) < |idx| && Shr(b, kbits') < |idx'|
    requires Resolve(idx', kbits', b) == Resolve(idx, kbits, b)
    requires ReadsBack(e, blob, idx, kbits, b)
    ensures ReadsBack(e, blob, idx', kbits', b)
  {
  }

  /** The index a finished walk leaves, merged as the writer merges it,
      reads the file back when discontinuities include hole boundaries. */
  lemma MergedReadsBack(e: Env, s0: Store, w: Walk, f: Format)
    requires ValidEnv(e) && e.chunkBits <= e.blkszBits + 31
    requires HolesZero(e.src, Blksz(e))
    requires Inv(e, s0, w, true) && Stride(|w.indexes|, ChunkSize(e)) >= Size(e)
    ensures |w.indexes| == CeilDiv(Size(e), ChunkSize(e))
    ensures FileReadsBack(e, w.store.blob,
                          MergeChunks(Chunked(f, Stride(CeilDiv(Size(e), ChunkSize(e)), Unit(f)), w.indexes),
                                      Size(e), e.blkszBits, e.chunkBits, MergeBits(w.minext, e.blkszBits)))
  {
    var kbits := e.chunkBits - e.blkszBits;
    CountExact(|w.indexes|, Size(e), ChunkSize(e));
    var r := MergeChunks(Chunked(f, Stride(CeilDiv(Size(e), ChunkSize(e)), Unit(f)), w.indexes),
                         Size(e), e.blkszBits, e.chunkBits, MergeBits(w.minext, e.blkszBits));
    MergeMapping(e, s0, w, f);
    forall b: nat | b < NBlocks(e)
      ensures && b * Blksz(e) < Size(e)
              && Shr(b, BlkBits(r.format)) < |r.indexes|
              && ReadsBack(e, w.store.blob, r.indexes, BlkBits(r.format), b)
    {
      BlockBelowSize(b, Size(e), Blksz(e));
      SameBlockReadsBack(e, w.store.blob, w.indexes, r.indexes, BlkBits(r.format), b);
    }
  }

  /** A block the walk's own index reads back reads back through an index
      that maps it the same way. */
  lemma SameBlockReadsBack(e: Env, blob: seq<byte>, indexes: seq<BlobChunk>, idx': seq<BlobChunk>,
                           kbits': nat, b: nat)
    requires ValidEnv(e) && SlotsOk(e, blob, indexes) && HolesZero(e.src, Blksz(e))
    requires b < NBlocks(e) && b * Blksz(e) < Size(e) && Shr(b, e.chunkBits - e.blkszBits) < |indexes|
    requires Shr(b, kbits') < |idx'|
    requires Resolve(idx', kbits', b) == Resolve(indexes, e.chunkBits - e.blkszBits, b)
    ensures ReadsBack(e, blob, idx', kbits', b)
  {
    SlotsReadBack(e, blob, indexes, b);
    ReadsBackSame(e, blob, indexes, e.chunkBits - e.blkszBits, idx', kbits', b);
  }

  /** The writer with hole boundaries counted as discontinuities: on
      success every block of the file reads back through the inode it
      returns, from the blob it leaves. */
  lemma WriteChunkedFileReadsBack(src: Source, sha: seq<byte> -> Digest, extraDevices: bool, blkszBits: nat,
                                  cfgBits: nat, format: Format, store: Store)
    requires StoreInv(store, sha, Pow2(blkszBits)) && HolesZero(src, Pow2(blkszBits))
    requires Room(Env(src, sha, extraDevices, blkszBits, ChunkBitsFor(src, blkszBits, cfgBits)), store)
    requires NoCollisions(Env(src, sha, extraDevices, blkszBits, ChunkBitsFor(src, blkszBits, cfgBits)), store)
    ensures WriteChunkedFile(src, sha, extraDevices, blkszBits, cfgBits, format, store, true).0.Ok? ==>
              FileReadsBack(Env(src, sha, extraDevices, blkszBits, ChunkBitsFor(src, blkszBits, cfgBits)),
                            WriteChunkedFile(src, sha, extraDevices, blkszBits, cfgBits, format, store, true).1.blob,
                            WriteChunkedFile(src, sha, extraDevices, blkszBits, cfgBits, format, store, true).0.value)
  {
    var e := Env(src, sha, extraDevices, blkszBits, ChunkBitsFor(src, blkszBits, cfgBits));
    var f := if extraDevices then WithIndexes(format) else format;
    var w0 := Walk([], store, NBlocks(e), None, src.initBuf);
    InitInv(e, store, src.initBuf, true);
    assert w0.store.blob[..|store.blob|] == store.blob;
    RunInv(e, store, w0, true);
    match Run(e, w0, true)
    case Fail(_, _) =>
    case Next(w) =>
      MergedReadsBack(e, store, w, f);
  }
}
