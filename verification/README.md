# erofs-utils core, modelled in Dafny

This project models four pieces of erofs-utils, the user-space tools for
the EROFS read-only file system:

- **fsck.erofs checks.**
  - The extended-attribute area check (`erofs_verify_xattr`).
  - The data check (`erofs_verify_inode_data`). This covers the walk over
    the inode's extents, the single-threaded decode-and-write loop, and the
    multi-threaded form that drains finished work items from the head of a
    linked list.
  - The per-inode classification of errors (`erofsfsck_check_inode`).
  - The path buffer that the directory walk extends and restores
    (`erofsfsck_dirent_iter`).
  - The `--extract=` path normaliser.
- **The chunk-based file writer of mkfs** (`lib/blobchunk.c`).
  - The deduplicating chunk store (`erofs_blob_getchunk`).
  - The chunk index and block-map writer, with its extent coalescing.
  - The pass that merges chunk indexes into coarser chunks.
  - The loop over a file's data and holes.
  - The chunk placement for tar images.
- **Tail-fragment deduplication and packing** (`lib/fragments.c`).
  - The 16-byte "taste" CRC.
  - The bucket scan for the longest common suffix.
  - Packing a tail into the packed container.
  - Committing the fragment flags.
- **The packed inode predicate and `COMPR_MAX_SZ`** (`include/erofs/compress.h`).

The model works as follows:

- Every operation is a pure function over immutable datatypes.
- Integers are unbounded. Where the C code wraps at 32 bits, the model says
  so explicitly (`Bits.Add32`, the `% U32_LIMIT` on block addresses).
- File, image and device I/O become parameters. An operation is given the
  bytes it would read and a success flag for each system call that can fail.
  A failed call also supplies the errno it leaves behind.
- The decoder, SHA-256 and crc32c are function parameters.
- In the multi-threaded data check, the worker threads become an arbitrary
  sequence of "worker finished item k" events. These are interleaved with
  the main thread's submissions.

Modules follow the source files:

| source | modules |
|---|---|
| `fsck/main.c` | `XattrVerify`, `ExtentWalk`, `Drain`, `FsckInode`, `FsckPath` |
| `lib/blobchunk.c` | `ChunkStore`, `ChunkIndex`, `ChunkMerge`, `ChunkedFile`, `TarChunks`, `ChunkedExample` |
| `lib/fragments.c` | `Fragments` |
| `include/erofs/compress.h` | `PackedInode` |
| shared helpers | `Bits` (32-bit arithmetic, powers of two, ilog2, lowbit), `Errno`, `Outcomes` (`Result`/`Option`) |

## Model

| member | source | states |
|---|---|---|
| PackedInode.IsPackedInode | include/erofs/compress.h:27-34 | The predicate itself, with the debug assertion (the unallocated sentinel only while the superblock's packed_nid is the sentinel too) as its precondition. Its properties are stated by the next two lemmas. |
| PackedInode.NoPackedInodeWhenZero | include/erofs/compress.h:27-34 | When the superblock records no packed inode (packed_nid 0), no allocated inode counts as packed. |
| PackedInode.AtMostOnePacked | include/erofs/compress.h:27-34 | Two allocated inodes that are both packed are the same inode: the superblock's packed_nid. |
| XattrVerify.VerifyXattr | fsck/main.c:290-366 | The check returns 0 or a negative errno. A declared xattr_isize of exactly the header size, or a nonzero size below it, is rejected as corrupted before anything is read. |
| XattrVerify.ZeroSizeNotRejectedBySizeChecks | fsck/main.c:301-341 | With xattr_isize 0 the size checks pass and the inline budget is negative. The verdict then comes only from the header read and the shared-index walk. |
| XattrVerify.NonPositiveBudgetAccepted | fsck/main.c:343-363 | With no inline bytes left to account for, the inline walk accepts without reading any entry. |
| XattrVerify.SharedWalk | fsck/main.c:325-341 | The shared-slot loop. Each slot advances the in-block offset by 4 bytes; an offset that passes the block end without landing on it is a misaligned slot. SharedWalkAccepts gives its closed form. |
| XattrVerify.InlineWalk | fsck/main.c:343-363 | The inline-entry loop. It returns 0 or a negative errno. Its meaning is stated by InlineAcceptTiles, TiledBudgetAccepted and OverrunRejected. |
| XattrVerify.SharedWalkAccepts | fsck/main.c:325-341 | Closed form of the shared-index walk. It accepts exactly when there are no shared entries, or when the start lies in the block and is either 4-byte aligned or the entries end before the block boundary. |
| XattrVerify.AlignedHeaderNeverMisaligned | fsck/main.c:325-341 | When the header is aligned and fits in its block, the shared walk never reports a misaligned entry, however many shared entries follow. |
| XattrVerify.InlineAcceptTiles | fsck/main.c:343-363 | An accepted inline walk has read a chain of entries whose sizes sum exactly to the budget. |
| XattrVerify.TiledBudgetAccepted | fsck/main.c:343-363 | Converse of the above: if readable entries tile the budget exactly, the inline walk accepts. |
| XattrVerify.OverrunRejected | fsck/main.c:355-360 | If the budget ends inside an entry, the walk reports -EFSCORRUPTED. |
| XattrVerify.AcceptedAreaIsTiled | fsck/main.c:290-366 | An accepted area with inline entries is exactly the header, the shared-index array and a chain of readable entries, with nothing left over. |
| ExtentWalk.LayoutKind | fsck/main.c:433-446 | Only the five known data layouts are accepted. Exactly the two compressed layouts are decoded through the compressed mapper. |
| ExtentWalk.Walk | fsck/main.c:448-471 | The extent walk, minus decoding. Its status is 0 or a negative errno. WalkProgress, WalkClampsExtents and WalkFailurePoint state what it visits. |
| ExtentWalk.Consume | fsck/main.c:473-523 | The single-threaded decode-and-write loop. It returns 0 or a negative errno. ConsumeWritesDecodedInOrder and ConsumeCleanIff state what it writes. |
| ExtentWalk.WalkProgress | fsck/main.c:448-471 | The visited extents tile [pos, end) contiguously and stay inside the file. The walk succeeds exactly when it reaches i_size. |
| ExtentWalk.WalkClampsExtents | fsck/main.c:455-468 | Every visited extent is mapped and nonempty. An uncompressed extent has equal logical and physical length. Every extent is clamped to i_size. |
| ExtentWalk.WalkFailurePoint | fsck/main.c:449-464 | A failed walk stopped inside the file. It failed either at a position the mapper could not map, returning the mapper's error, or at an uncompressed extent with llen != plen, returning -EFSCORRUPTED. |
| ExtentWalk.ConsumeWritesDecodedInOrder | fsck/main.c:473-523 | The single-threaded loop returns 0, -EIO from the output, or the decode error of an extent it had to decode. What it writes is a prefix of the extents that need decoding, in walk order, each of which decoded cleanly; on success it is all of them. With no output file it writes nothing. |
| ExtentWalk.ConsumeCleanIff | fsck/main.c:514-523 | With an output file the loop returns 0 exactly when every extent it has to decode decodes and writes without error. |
| ExtentWalk.VerifyData | fsck/main.c:415-563 | An unknown layout returns -EINVAL. In that case nothing is written and the statistics are unchanged. |
| ExtentWalk.SuccessCoversFile | fsck/main.c:415-563 | A successful check used a known layout. Its extents tile [0, i_size). The output is exactly the extents that needed decoding, in order. |
| ExtentWalk.ContiguousIncreasing | fsck/main.c:448-471 | Extents visited by the walk are strictly ordered and never overlap. |
| ExtentWalk.StatsOnlyOnSuccess | fsck/main.c:526-530 | Compression statistics change only on success with --print-comp-ratio. The packed inode adds no logical blocks; any other inode adds its i_size rounded up to blocks. |
| Drain.Submit | fsck/main.c:477-491 | Submission appends one unfinished item at the tail of the list, keeps every earlier item, and counts one more submission. |
| Drain.SubmitInv | fsck/main.c:478-487 | Submission keeps the pipeline invariant. Each work object is either on the list or on the idle free-list, never both. A new object is allocated only when the free-list is empty. |
| Drain.Complete | fsck/main.c:378-413 | A worker finishing item k marks only that item. Its eio flag records whether that extent's decode failed. |
| Drain.CompleteInv | fsck/main.c:378-413 | A worker finishing an item keeps the pipeline invariant. |
| Drain.Pop | fsck/main.c:495-505 | Draining the head counts exactly one more drained item and submits nothing; the item leaves the list rather than being lost. |
| Drain.PopInv | fsck/main.c:495-505 | Draining the head keeps the invariant. The return value becomes nonzero exactly when it already was or the drained item failed. |
| Drain.DrainReady | fsck/main.c:494-511 | The per-submission drain. It submits nothing and only drains. DrainReadyInv states where it stops. |
| Drain.DrainReadyInv | fsck/main.c:494-511 | After the per-submission drain, the items drained without error all succeeded. If no error was seen, the new head is unfinished or the list is empty. |
| Drain.DrainAll | fsck/main.c:532-551 | The final drain empties the list. Every submitted item is accounted for. |
| Drain.DrainAllInv | fsck/main.c:532-551 | The final drain keeps the invariant. The output is still the succeeded items in submission order. |
| Drain.Run | fsck/main.c:448-524 | Any interleaving of submissions and worker completions, as a sequence of events. RunInv states what it keeps. |
| Drain.Parallel | fsck/main.c:477-551 | A whole multi-threaded run: the events, then every item finishes and the final drain. ParallelOutput states its result. |
| Drain.RunInv | fsck/main.c:448-524 | Any interleaving of submissions and worker completions keeps the invariant. It never submits more items than needed, and an error once seen stays. |
| Drain.ParallelOutput | fsck/main.c:477-551 | Whatever the thread timing, after the final drain: the list is empty, every work object is back on the free-list, and the output holds exactly the succeeded items in submission order. The result is -EIO exactly when some drained item failed. |
| Drain.ParallelCleanRunWritesAll | fsck/main.c:477-551 | When every item succeeds and all are submitted, the result is 0 and every item is written once, in order. |
| Drain.ParallelMatchesSequential | fsck/main.c:473-551 | On a file the single-threaded loop verifies cleanly, the multi-threaded run also returns 0 and writes the same extents in the same order, under any timing, provided the workers' decoder succeeds wherever the single-threaded one does. |
| FsckInode.ActionFor | fsck/main.c:827-854 | Without --extract, or for an unknown type or the packed regular file, the inode is only verified. Device, fifo and socket inodes take the special-file path. |
| FsckInode.CheckInode | fsck/main.c:806-879 | -ECANCELED comes only from the inode read or the xattr check. The corrupted flag is set exactly by errors other than -EIO. Attributes are applied only on success when extracting a non-packed inode. Only directories are iterated. |
| FsckInode.SkippedSpecialIsClean | fsck/main.c:840-877 | A special file the extractor declines with -ECANCELED counts as clean: no error, no new corruption, no attributes, no iteration. |
| FsckInode.IterationCondition | fsck/main.c:855-868 | A directory is iterated exactly when the read, the xattr check and its verify/extract stage succeed (or the stage is cancelled). Its result is the iteration's result, with -ECANCELED absorbed to 0. |
| FsckInode.FirstFailureWins | fsck/main.c:813-825 | A failed inode read or xattr check ends the inode with that error, and nothing is iterated or applied. |
| FsckInode.AttributesCondition | fsck/main.c:855-871 | Attributes are applied exactly when extracting a non-packed inode whose checks, and for a directory its iteration, all succeeded. |
| FsckInode.CorruptedFlagSticky | fsck/main.c:875-877 | Once set, the corrupted flag stays set. An -EIO alone does not set it. |
| FsckPath.TrimLen | fsck/main.c:134-136 | Trailing '/' characters are dropped, but the first character is always kept. The kept prefix ends in a non-'/' unless it is a single character. |
| FsckPath.ParseExtractAsWritten | fsck/main.c:126-147 | As written, only an empty argument is refused (with -EINVAL). Any other length is copied. |
| FsckPath.ParseExtract | fsck/main.c:126-147 | With the PATH_MAX bound, every accepted argument yields a NUL-terminated buffer whose position lies inside it. |
| FsckPath.ParseExtractMeaning | fsck/main.c:134-146 | The buffer holds the argument without its trailing slashes. The position is 0 exactly for "/" and the kept length otherwise. |
| FsckPath.ParseExtractIdempotent | fsck/main.c:134-146 | Normalising an already normalised path changes nothing. |
| FsckPath.EnterAsWritten | fsck/main.c:766-775 | As written, the child name is appended after a '/' at the current position and NUL-terminated, whatever the length. |
| FsckPath.Enter | fsck/main.c:766-775 | With the bound, an append that would overrun PATH_MAX is refused with -ENAMETOOLONG. Every accepted append is the as-written one. |
| FsckPath.Leave | fsck/main.c:799-802 | Restoring puts the NUL back at the saved position. Everything before it is kept. |
| FsckPath.EnterLeaveRoundTrip | fsck/main.c:758-804 | Entering a child gives parent + "/" + name. Leaving it restores exactly the parent's path, whatever the child's own walk did below it. |
| FsckPath.RootChildThenRestore | fsck/main.c:143-146 | For --extract=/, the root is kept as position 0. A child of the root becomes "/name", and restoring leaves the empty string, not "/". |
| FsckPath.VisitOne | fsck/main.c:758-804 | The bounded walk, built on the corrected Enter: visiting one entry skips "." and "..", and skips names too long to append. Otherwise it checks the child at parent/name. The parent's path is restored afterwards. |
| FsckPath.VisitAll | fsck/main.c:758-804 | The bounded walk, built on the corrected Enter: after a directory's entries the parent path is unchanged. Every path checked extends it and fits in PATH_MAX. |
| FsckPath.EnterOverflowsBuffer | fsck/main.c:766-775 | Sixteen nested 249-character directories and a 255-character name make the as-written append end 161 bytes past the 4096-byte buffer. |
| FsckPath.ParseExtractOverflowsBuffer | fsck/main.c:137-142 | A 5000-character --extract argument is copied as written into a buffer that needs 5001 bytes. The bounded form refuses it. |
| ChunkStore.Memcmp | lib/blobchunk.c:112-124 | The byte comparison is 0 exactly on equal buffers, and otherwise -1 or 1. |
| ChunkStore.MemcmpAntisymmetric | lib/blobchunk.c:112-124 | Swapping the operands of the comparison negates it. |
| ChunkStore.HashmapCmp | lib/blobchunk.c:112-124 | An entry matches exactly when its digest equals the key, or equals the other entry's digest when no key is given. |
| ChunkStore.Lookup | lib/blobchunk.c:67-74 | The lookup misses exactly when no stored chunk has the digest. A hit returns a stored chunk with that digest. |
| ChunkStore.Padding | lib/blobchunk.c:92-105 | The zero padding brings the blob to a block boundary and is shorter than a block. |
| ChunkStore.GetChunk | lib/blobchunk.c:57-110 | A write failure returns -ENOSPC and leaves the table unchanged. A returned chunk always carries the buffer's digest. |
| ChunkStore.GetChunkMiss | lib/blobchunk.c:76-109 | A new chunk is stored at the blob's old end, padded to a block. It goes on device 1 exactly with extra devices, and is appended to the table. |
| ChunkStore.GetChunkGrows | lib/blobchunk.c:92-105 | The blob only grows, by less than the buffer plus one block. Its old bytes are kept. |
| ChunkStore.GetChunkHit | lib/blobchunk.c:67-74 | A digest hit returns the stored chunk and writes nothing. Its stored extent hashes to the buffer's digest. |
| ChunkStore.GetChunkInv | lib/blobchunk.c:57-110 | The store invariant is kept: every chunk lies within the blob, and its extent hashes to its digest. |
| ChunkStore.GetChunkTable | lib/blobchunk.c:57-110 | A successful call either leaves the table alone or appends exactly the returned chunk. |
| ChunkStore.GetChunkIdempotent | lib/blobchunk.c:57-110 | Storing the same bytes again right after a successful store returns the same chunk and the same store, whatever the writes would do. |
| ChunkStore.GetChunkSound | lib/blobchunk.c:57-110 | If the digest has no collision among stored extents, the returned chunk's extent is exactly the buffer. |
| ChunkIndex.Unit | lib/blobchunk.c:136-139 | An index record is 8 bytes exactly when the inode uses chunk indexes, and 4 bytes otherwise. |
| ChunkIndex.WithIndexes | lib/blobchunk.c:251-256 | Forcing chunk indexes keeps the chunk bits and every other format bit. |
| ChunkIndex.OrBlkBits | lib/blobchunk.c:349 | OR-ing chunk bits into an empty chunk-bits field sets it to those bits and keeps the high bits. |
| ChunkIndex.Translate | lib/blobchunk.c:148-156 | Holes become NULL_ADDR. Chunks on extra devices keep their address. Local chunks are shifted by the remapped base, modulo 2^32. |
| ChunkIndex.Step | lib/blobchunk.c:158-173 | After each chunk, the open extent ends just past that chunk's translated address. |
| ChunkIndex.WriteChunkIndexes | lib/blobchunk.c:126-192 | One record per index slot: the translated address and the device id of that slot's chunk. |
| ChunkIndex.RecordsPerChunk | lib/blobchunk.c:141-143 | An index area of count records holds exactly count records. |
| ChunkIndex.StepCovers | lib/blobchunk.c:158-173 | Coalescing a chunk adds exactly that chunk's address to the covered blocks, and nothing for a hole. |
| ChunkIndex.Fold | lib/blobchunk.c:142-181 | The coalescing loop over the chunk pointers. FoldCovers states what it covers. |
| ChunkIndex.FoldCovers | lib/blobchunk.c:142-181 | Coalescing a sequence of chunks covers exactly their data addresses, in order. |
| ChunkIndex.LocalExtentsCoverData | lib/blobchunk.c:142-189 | For local chunks, the block-list extents, expanded to blocks, cover exactly the data chunks' addresses in file order. Holes are covered by nothing. |
| ChunkMerge.ClampChunkBits | lib/blobchunk.c:200-201 | Merged chunk bits are clamped into [blkbits, blkbits+31] and unchanged when already in range. |
| ChunkMerge.EncodeFormat | lib/blobchunk.c:221-222 | The format records the chunk bits relative to the block size and keeps the other bits. |
| ChunkMerge.EncodeFormatDecodes | lib/blobchunk.c:221-222 | Decoding the stored chunk bits gives back 2^(chunkbits-blkbits) blocks per chunk. The record size is unchanged. |
| ChunkMerge.Resample | lib/blobchunk.c:210-215 | The merged index keeps every k-th old index. |
| ChunkMerge.MergeChunks | lib/blobchunk.c:194-224 | Without coarser bits the index is untouched. Otherwise it has one record per new chunk, each the first old chunk of its group, with the area size recomputed. |
| ChunkMerge.MergeChunksClamped | lib/blobchunk.c:200-201 | Merging with unclamped bits is the same as merging with clamped bits. |
| ChunkMerge.MergeShrinks | lib/blobchunk.c:194-224 | For a file larger than one chunk, coarser chunks mean strictly fewer index records. |
| ChunkMerge.MergeKeepsBlock | lib/blobchunk.c:194-224 | When every discontinuity sits on a new-chunk boundary, each file block resolves to the same device block after merging. |
| ChunkMerge.MergeKeepsMapping | lib/blobchunk.c:194-224 | Under the same condition, the merged index maps the whole file as the original did. |
| ChunkedFile.NextData | lib/blobchunk.c:274-280 | SEEK_DATA gives the first data block at or after the position, or none if the rest is a hole. |
| ChunkedFile.WholeFileBits | lib/blobchunk.c:238-245 | For a fully sparse file, the chunk bits are the least power of two covering the size. |
| ChunkedFile.ChunkBitsFor | lib/blobchunk.c:238-247 | The chosen chunk bits always lie in the representable range above the block size. |
| ChunkedFile.ProbeSlot | lib/blobchunk.c:274-298 | One SEEK_DATA probe: a hole run it reports covers at least one slot. ProbeHoles and ProbeReads state what it skips and reads. |
| ChunkedFile.ReadStep | lib/blobchunk.c:300-323 | Reading and storing one slot appends exactly one index and keeps the earlier ones. A short read fails with -EIO. As written a failed read goes on; only the corrected walk, when it goes on, has read the whole slot. |
| ChunkedFile.ProbeHoles | lib/blobchunk.c:274-298 | Every slot the probe skips as a hole lies inside the file and holds no data. |
| ChunkedFile.ProbeReads | lib/blobchunk.c:274-298 | A slot is read only when it contains a data block, or SEEK_DATA failed. |
| ChunkedFile.Lower | lib/blobchunk.c:314-320 | The minimum extent only decreases. It becomes the new candidate or keeps its value. |
| ChunkedFile.HoleStep | lib/blobchunk.c:289-297 | Skipping holes appends hole indexes, stores nothing and forgets the last chunk. |
| ChunkedFile.Step | lib/blobchunk.c:272-323 | Each step appends at least one index and keeps the earlier ones. |
| ChunkedFile.Run | lib/blobchunk.c:272-323 | The loop ends with indexes covering the whole file, extending the ones it started with. |
| ChunkedFile.WriteChunkedFile | lib/blobchunk.c:226-333 | The result uses chunk indexes exactly when there are extra devices or the format already asked for them. |
| ChunkedFile.InitInv | lib/blobchunk.c:262-271 | The loop invariant holds before the first slot. |
| ChunkedFile.StepInv | lib/blobchunk.c:272-323 | Each step that stores what it read keeps the invariant. Every slot is a hole with no data or a stored chunk holding its bytes, and every recorded break respects minextblks. |
| ChunkedFile.RunInv | lib/blobchunk.c:272-323 | The whole loop keeps the invariant when it is corrected or no read fails. |
| ChunkedFile.BreaksAligned | lib/blobchunk.c:314-327 | With holes counted as breaks, every discontinuity falls on a boundary of the merged chunk size. |
| ChunkedFile.SlotsReadBack | lib/blobchunk.c:272-323 | Before merging, every file block reads back its own bytes through the index: a data block from the blob, and a block that maps to a hole is a block of zeros. |
| ChunkedFile.MergedReadsBack | lib/blobchunk.c:326-327 | After merging with hole boundaries counted, every block still reads back its bytes. |
| ChunkedFile.WriteChunkedFileReadsBack | lib/blobchunk.c:226-333 | The corrected writer (hole boundaries counted, failed reads refused): a successfully written file reads back byte for byte, holes as zeros. |
| ChunkedExample.ExampleWalk | lib/blobchunk.c:272-323 | On a 2-block file whose first block is a hole, the walk records a hole then the data chunk. minextblks drops to 1 only if hole boundaries count. |
| ChunkedExample.AsWrittenResult | lib/blobchunk.c:226-333 | As written, that file gets a single merged index entry: the hole's. |
| ChunkedExample.MergedLosesBlock | lib/blobchunk.c:326-327 | In that merged index the data block resolves to no block. |
| ChunkedExample.AsWrittenLosesData | lib/blobchunk.c:296-327 | As written, the writer succeeds on that file and the file does not read back. |
| ChunkedExample.CorrectedKeepsData | lib/blobchunk.c:296-327 | Counting the hole boundary keeps two one-block chunks, and the file reads back. |
| ChunkedExample.FailedReadFirstSlot | lib/blobchunk.c:300-323 | On the 2-block file [5, 7] whose second read fails, the first slot is read and stored at block 0. |
| ChunkedExample.FailedReadSecondSlot | lib/blobchunk.c:300-323 | As written, slot 1 of that file, whose read fails, appends the first chunk again and lowers minextblks to 1. |
| ChunkedExample.FailedReadWalk | lib/blobchunk.c:300-323 | As written, the failed read of slot 1 stores the buffer's stale byte 5, which dedupes to the first chunk. |
| ChunkedExample.StaleResult | lib/blobchunk.c:226-333 | As written, the writer returns an index whose two slots both point at byte 5. |
| ChunkedExample.StaleBlock | lib/blobchunk.c:300-323 | In that index, block 1 reads back 5 instead of 7. |
| ChunkedExample.AsWrittenStoresStale | lib/blobchunk.c:300-312 | As written, the writer succeeds on that file although its second read failed, and the file does not read back. |
| ChunkedExample.CorrectedFailsRead | lib/blobchunk.c:300-306 | Refusing a failed read, the writer stops at slot 1 with -EIO. |
| TarChunks.TarChunkBits | lib/blobchunk.c:338-347 | Tar chunk bits lie in range and cover the whole file in one chunk unless capped at the maximum. |
| TarChunks.WriteTarChunks | lib/blobchunk.c:335-391 | Extra devices force chunk indexes and leave the blob size alone. Otherwise the data blob grows by the file rounded up to blocks. There is one record per chunk of the chosen size. |
| TarChunks.Place | lib/blobchunk.c:363-388 | The tar placement loop. PlaceCount and PlaceAt state how many chunks it emits and where each lies. |
| TarChunks.PlaceCount | lib/blobchunk.c:363-388 | The placement loop emits ceil(i_size / chunk size) chunks. |
| TarChunks.PlaceAt | lib/blobchunk.c:372-388 | The i-th placed chunk starts i chunks after the first block, at source offset i chunk sizes in. |
| TarChunks.TarIndexes | lib/blobchunk.c:349-388 | The index is the contiguous placement from the start block, on the chosen device. |
| TarChunks.PlacedBlock | lib/blobchunk.c:372-388 | Each file block is mapped to start block + b, at source offset + b blocks. |
| TarChunks.TarMapsContiguously | lib/blobchunk.c:335-391 | With an aligned start and no address wrap, the tar file's data is mapped contiguously, block by block, from its start. |
| Fragments.Hash | lib/fragments.c:34-37 | The bucket number is below the table size. |
| Fragments.CountBack | lib/fragments.c:96-98 | The backwards comparison loop counts exactly the length of the common suffix. |
| Fragments.SuffixMatchEqual | lib/fragments.c:96-98 | The counted suffix really is shared by both buffers. |
| Fragments.SuffixMatchLongest | lib/fragments.c:96-98 | No longer common suffix exists. |
| Fragments.Gain | lib/fragments.c:93-98 | A candidate's gain beyond the 16-byte anchor fits in both buffers. |
| Fragments.Scan | lib/fragments.c:87-108 | The scan changes only the items' nr_dup stamps. The chosen item has a positive gain, stamped with gain + 16. |
| Fragments.ScanFrom | lib/fragments.c:87-108 | The candidate loop from one position on. It changes only nr_dup stamps, and the best it returns has a positive gain, stamped with gain + 16. |
| Fragments.ScanWinner | lib/fragments.c:87-108 | The chosen item has the longest match, and the first one among equals. The scan stops early only at a full-window match. |
| Fragments.ScanNone | lib/fragments.c:100-110 | No item is chosen exactly when no candidate matches beyond the anchor. |
| Fragments.ScanSomeBacked | lib/fragments.c:100-115 | The adopted fragment is more than 16 bytes, and it is a stored container range equal to the file's tail. |
| Fragments.ScanBacked | lib/fragments.c:100-115 | Both of the above together. |
| Fragments.Window | lib/fragments.c:63-67 | The compared window is the last min(i_size, COMPR_MAX_SZ) bytes of the file. |
| Fragments.DedupeFind | lib/fragments.c:50-122 | An empty bucket returns 0 and changes nothing. A failed read returns -errno and changes nothing. Otherwise it returns the window length, touches only the file's bucket, and any adopted fragment is longer than 16 bytes. |
| Fragments.Adopt | lib/fragments.c:109-115 | The adopted fragment ends where the stored item ends and has the duplicated length. |
| Fragments.Dedupe | lib/fragments.c:124-147 | Tails of at most 16 bytes are skipped. The taste CRC is produced exactly when the taste bytes are read, and it is the CRC of the last 16 bytes. |
| Fragments.DedupeKeepsStore | lib/fragments.c:124-147 | Deduplication keeps every stored item backed by its container range. |
| Fragments.DedupeFinds | lib/fragments.c:124-147 | When all I/O succeeds and a bucket item matches beyond the anchor, the inode adopts a stored tail equal to its own tail. Otherwise it is unchanged. |
| Fragments.DedupeSound | lib/fragments.c:124-147 | Whatever the I/O, an adopted fragment is always a stored range equal to the file's tail. |
| Fragments.Insert | lib/fragments.c:149-168 | Tails of at most 16 bytes are not recorded. Others are appended to their bucket only. |
| Fragments.InsertKeepsStore | lib/fragments.c:149-168 | Recording a tail appended at the container's end keeps every item backed. |
| Fragments.PackFragments | lib/fragments.c:207-234 | A failed tell returns -errno. A failed write returns -EIO with the container unchanged. Success appends the data, records it at the old end, and returns its length. |
| Fragments.PackKeepsStore | lib/fragments.c:207-234 | Packing keeps every stored item backed. On success the inode's fragment is exactly the packed data. |
| Fragments.SetFlag | lib/fragments.c:203 | Setting an advise flag sets that bit and keeps every other bit. |
| Fragments.Commit | lib/fragments.c:192-205 | Inodes without a fragment are untouched. Otherwise the fragment flag is set and every other advise bit kept, an offset of 4 GiB or more switches to the legacy layout, and no other field changes. |
| Fragments.CommitIdempotent | lib/fragments.c:192-205 | Committing a second time changes nothing. |

## Left out

- Allocation failures (`-ENOMEM`, `BUG_ON(!ptr)`): `malloc`/`calloc` are
  taken to succeed everywhere, in both fsck and mkfs.
- Inode reads, directory iteration and the per-type extract helpers of
  fsck: these are given as return values in `FsckInode.Probe`. The
  decoders (`z_erofs_read_one_data`, `erofs_read_one_data`) are a function
  from extent to error in `ExtentWalk.DecodeIo`.
- The multi-threaded directory walk (the workqueue branch of
  `erofsfsck_dirent_iter`): only the sequential path-buffer discipline is
  modelled.
- Thread scheduling: the multi-threaded data check is modelled as any
  interleaving of submissions and completions, not as real threads.
- Drain.ParallelOutput: covers the items handed to workers only. A mapping
  error that ends the walk after some items were submitted is not combined
  with the drain, and neither is the statistics update that runs before the
  final drain (fsck/main.c:526-530).
- ExtentWalk.Walk: takes the extent the block mapper returns to start at
  the position it was asked for (m_la == pos). The source clamps with the
  m_la the mapper returns and advances by m_llen (fsck/main.c:466-471);
  `erofs_map_blocks` and `z_erofs_map_blocks_iter` are not part of this
  model.
- ExtentWalk.VerifyData: models the single-threaded consumer. The
  multi-threaded consumer is `Drain`, linked to it by
  `Drain.ParallelMatchesSequential`.
- Drain.ParallelMatchesSequential: the workers' decoder is a parameter of
  its own, and the lemma takes as a hypothesis that it succeeds wherever
  the single-threaded decoder does. The source never sets a work item's
  inode (fsck/main.c:478-490), so a worker decodes a compressed extent
  with a NULL inode (fsck/main.c:398), while the single-threaded path
  passes the inode (fsck/main.c:423). What `z_erofs_read_one_data` does
  with a NULL inode is not part of this model.
- Drain.Submit: a failing `erofs_workqueue_add` is not modelled. In the
  source the item is already linked with its work function set
  (fsck/main.c:485-490) when the failure jumps to the final drain
  (fsck/main.c:491-492). No worker will clear that function, so the final
  drain (fsck/main.c:533-548) would wait forever.
- FsckPath.VisitAll: the child's check result, which the callback returns
  to the directory iterator (fsck/main.c:794, 803), is not modelled. The
  walk visits every entry whatever a child's result.
- Printing, progress counters and debug messages.
- `dev_write`, `tarerofs_blocklist_write` and
  `erofs_droid_blocklist_write_extent`: the index records and extents are
  returned as a trace instead of being written. The `roundup` of the index
  offset is not modelled.
- ChunkIndex.LocalExtentsCoverData: stated only for local (device 0)
  chunks. For chunks on extra devices the source drops the open extent; the
  model does the same in `ChunkIndex.Step`, but no coverage property is
  stated for it.
- ChunkedFile.NextData: `SEEK_DATA` is modelled at block granularity, as a
  per-block data bitmap. The real call is byte-granular and
  filesystem-dependent.
- ChunkedFile.WriteChunkedFileReadsBack: assumes that SHA-256 has no
  collisions among the file's slots and the store (`NoCollisions`). It also
  assumes that blob addresses stay below 2^32 blocks (`Room`), and that a
  block SEEK_DATA does not report as data reads as zeros (`HolesZero`). It
  is stated for the corrected walk, which counts hole boundaries and
  refuses failed reads.
- ChunkedFile.Head: a chunk buffer shorter than the slot reads as zeros
  past its end. A source whose initial buffer holds a whole chunk, as the
  malloc'd one does, never meets that case.
- TarChunks.TarMapsContiguously: takes the `DBG_BUGON` block alignment of
  the start, and the absence of 32-bit address wrap, as hypotheses.
- 32-bit truncation of `unsigned int` lengths (`len` in
  `z_erofs_pack_fragments`, the `int` return of
  `z_erofs_fragments_dedupe_find`): lengths are unbounded here.
- ChunkStore.GetChunk: SHA-256 and the hash-map hash are function
  parameters. Only digest equality decides a hit, as in `hashmap_cmp`.
- Fragments.Dedupe: `erofs_crc32c` is a function parameter. `ftello` on
  the packed file is modelled as the container length plus a success flag.
- `z_erofs_fragments_dedupe_init` and `z_erofs_fragments_dedupe_exit`:
  list initialisation and freeing only.
- `erofs_mkfs_build_fragments` and `erofs_sb_set_fragments`: the first
  lies outside the modelled core. The second is the boolean returned by
  `Fragments.Commit`.
- Constants taken from headers that are not part of this model:
  - the xattr header is 12 bytes and an xattr entry 4 bytes;
  - a chunk index record is 8 bytes and a block-map entry 4;
  - the chunk-bits mask is 0x1F and the indexes flag 0x20;
  - EROFS_NULL_ADDR is 2^32 - 1, and the packed nid of an unallocated
    packed inode is 2^64 - 1;
  - Z_EROFS_ADVISE_FRAGMENT_PCLUSTER is 0x20;
  - the layouts are numbered 0 to 4;
  - the errno values are the Linux ones.

## Findings

| source | as written | input that shows it | evidently intended | confidence | as-written member | corrected member |
|---|---|---|---|---|---|---|
| fsck/main.c:766-775 | appends "/" and the entry name to the PATH_MAX buffer with no length check | sixteen nested directories with 249-character names, then a 255-character entry: the append ends 161 bytes past the 4096-byte buffer | refuse an append that does not fit, e.g. with -ENAMETOOLONG | not executed | FsckPath.EnterOverflowsBuffer | FsckPath.Enter |
| fsck/main.c:137-142 | copies the whole --extract argument into the PATH_MAX buffer with no length check | a 5000-character argument | refuse arguments of PATH_MAX bytes or more | not executed | FsckPath.ParseExtractOverflowsBuffer | FsckPath.ParseExtract |
| lib/blobchunk.c:302-306 | the int result of read() is compared with the unsigned 64-bit length, so -1 converts to 2^64 - 1 and passes the `ret < len` check; the buffer's previous contents are then stored as the slot's chunk | the 2-block file [5, 7] with 1-byte blocks and chunks, whose second read fails: the writer succeeds, and block 1 reads back 5, the first block's byte | treat a negative result as an error too (`ret < 0 || ret < len`) and return -EIO | not executed | ChunkedExample.AsWrittenStoresStale | ChunkedFile.WriteChunkedFileReadsBack |
| lib/blobchunk.c:289-327 | a hole run resets lastch to NULL, so the data chunk after a hole never lowers minextblks, and the merge may swallow it into the hole's chunk | a 2-block file whose first block is a hole, 1-block chunks: the merged index maps the data block as a hole | treat a hole-to-data boundary as a discontinuity so merged chunks never span it | not executed | ChunkedExample.AsWrittenLosesData | ChunkedFile.WriteChunkedFileReadsBack |
