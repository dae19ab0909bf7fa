/** The inode xattr-area validator of fsck (erofs_verify_xattr).

    An inode's xattr area starts right after the inode record with a fixed
    ibody header, followed by `h_shared_count` 4-byte slots that name shared
    xattrs, followed by variable-size inline entries. The validator walks this
    area against the inode's declared `xattr_isize`. */
module XattrVerify {
  import Errno
  import Bits
  import opened Outcomes

  /** sizeof(struct erofs_xattr_ibody_header). */
  const XATTR_HDR_SIZE: nat := 12
  /** sizeof(struct erofs_xattr_entry); the shared-slot walk also advances by
      this amount per slot. */
  const XATTR_ENTRY_SIZE: nat := 4

  /** erofs_xattr_entry_size of an on-disk entry: never below the entry
      header itself (it is the header plus name plus value, 4-aligned). */
  type EntrySize = n: nat | n >= XATTR_ENTRY_SIZE witness XATTR_ENTRY_SIZE

  /** dev_read's result: 0 on success or a negative errno. */
  type ReadStatus = x: int | x <= 0

  /** What the validator reads from the image: the header's shared count
      (a u8), the outcome of a read at each address, and the size of the
      inline entry whose header sits at each address. */
  datatype XattrImage = XattrImage(
    sharedCount: nat,
    readAt: nat -> ReadStatus,
    entrySizeAt: nat -> EntrySize)

  /** erofs_verify_xattr. `addr` is iloc(nid) + inode_isize, the byte address
      of the xattr header; `blksz` is the block size. Returns 0 or a negative
      errno. A declared size of 0 is not short-circuited: the header is still
      read and the shared slots it announces are still walked. */
  function VerifyXattr(xattrIsize: nat, addr: nat, img: XattrImage, blksz: nat): (r: int)
    requires blksz >= 1
    ensures r <= 0
    ensures xattrIsize == XATTR_HDR_SIZE ==> r == -Errno.EFSCORRUPTED
    ensures 0 < xattrIsize < XATTR_HDR_SIZE ==> r == -Errno.EFSCORRUPTED
  {
    if xattrIsize == XATTR_HDR_SIZE then -Errno.EFSCORRUPTED
    else if xattrIsize < XATTR_HDR_SIZE && xattrIsize != 0 then -Errno.EFSCORRUPTED
    else if img.readAt(addr) < 0 then img.readAt(addr)
    else
      match SharedWalk(img.sharedCount, addr % blksz + XATTR_HDR_SIZE, blksz)
      case None => -Errno.EFSCORRUPTED
      case Some(_) =>
        InlineWalk(InlineBudget(xattrIsize, img.sharedCount),
                   addr + XATTR_HDR_SIZE + XATTR_ENTRY_SIZE * img.sharedCount, img)
  }

  /** The bytes left for inline entries once the header and the shared slots
      are taken from the declared size; negative when they over-consume it. */
  function InlineBudget(xattrIsize: nat, sharedCount: nat): int
  {
    xattrIsize - XATTR_HDR_SIZE - XATTR_ENTRY_SIZE * sharedCount
  }

  /** The shared-slot loop: `ofs` is the in-block offset of the next slot.
      An offset that reaches the block size must equal it exactly and then
      wraps to 0; one that overshoots means a slot straddles two blocks.
      Returns the final offset, or None for an unaligned slot. */
  function SharedWalk(count: nat, ofs: nat, blksz: nat): (r: Option<nat>)
    decreases count
  {
    if count == 0 then Some(ofs)
    else if ofs >= blksz && ofs != blksz then None
    else
      var start := if ofs >= blksz then 0 else ofs;
      SharedWalk(count - 1, start + XATTR_ENTRY_SIZE, blksz)
  }

  /** The inline-entry loop: while budget remains, read the next entry
      header and require the entry to fit in what is left. */
  function InlineWalk(remaining: int, addr: nat, img: XattrImage): (r: int)
    ensures r <= 0
    decreases remaining
  {
    if remaining <= 0 then 0
    else if img.readAt(addr) != 0 then img.readAt(addr)
    else if remaining < img.entrySizeAt(addr) then -Errno.EFSCORRUPTED
    else InlineWalk(remaining - img.entrySizeAt(addr), addr + img.entrySizeAt(addr), img)
  }

  /** Total size of the first n inline entries chained from addr. */
  function ChainSize(addr: nat, n: nat, img: XattrImage): nat
    decreases n
  {
    if n == 0 then 0
    else img.entrySizeAt(addr) + ChainSize(addr + img.entrySizeAt(addr), n - 1, img)
  }

  /** The first n inline entries chained from addr can all be read. */
  predicate ChainReadable(addr: nat, n: nat, img: XattrImage)
    decreases n
  {
    n == 0 || (img.readAt(addr) == 0 && ChainReadable(addr + img.entrySizeAt(addr), n - 1, img))
  }

  // ---------------------------------------------------------------------
  // Properties of the size checks.

  /** A declared size of 0 passes the size checks: the outcome is decided by
      the header read and the shared-slot walk alone, and since the inline
      budget is then negative no inline entry is ever read. */
  lemma ZeroSizeNotRejectedBySizeChecks(addr: nat, img: XattrImage, blksz: nat)
    requires blksz >= 1
    ensures InlineBudget(0, img.sharedCount) < 0
    ensures VerifyXattr(0, addr, img, blksz) ==
              if img.readAt(addr) < 0 then img.readAt(addr)
              else if SharedWalk(img.sharedCount, addr % blksz + XATTR_HDR_SIZE, blksz).None?
              then -Errno.EFSCORRUPTED
              else 0
  {
  }

  /** An over-consumed budget yields no inline reads and no error. */
  lemma NonPositiveBudgetAccepted(remaining: int, addr: nat, img: XattrImage)
    requires remaining <= 0
    ensures InlineWalk(remaining, addr, img) == 0
  {
  }

  // ---------------------------------------------------------------------
  // The shared-slot walk, characterised in closed form.

  /** For a block size that is a multiple of the slot size, the shared walk
      accepts exactly when there are no slots, or the first offset is inside
      the block and either slot-aligned (so every slot boundary meets the
      block end exactly) or the slots run out before the block end is
      crossed. */
  lemma {:induction false} SharedWalkAccepts(count: nat, ofs: nat, blksz: nat)
    requires blksz >= XATTR_ENTRY_SIZE && blksz % XATTR_ENTRY_SIZE == 0
    ensures SharedWalk(count, ofs, blksz).Some? <==>
              count == 0 ||
              (ofs <= blksz &&
               (ofs % XATTR_ENTRY_SIZE == 0 || count <= (blksz - ofs + 3) / XATTR_ENTRY_SIZE))
    decreases count
  {
    if count > 0 {
      if ofs > blksz {
      } else if ofs == blksz {
        SharedWalkAccepts(count - 1, XATTR_ENTRY_SIZE, blksz);
      } else {
        SharedWalkAccepts(count - 1, ofs + XATTR_ENTRY_SIZE, blksz);
      }
    }
  }

  /** On a well-formed image the inode (and so the xattr header) is 4-byte
      aligned; if the header also lies within one block the shared walk never
      reports an unaligned slot, however many slots the header announces. */
  lemma AlignedHeaderNeverMisaligned(count: nat, addr: nat, blksz: nat)
    requires blksz >= XATTR_ENTRY_SIZE && blksz % XATTR_ENTRY_SIZE == 0
    requires addr % XATTR_ENTRY_SIZE == 0
    requires addr % blksz + XATTR_HDR_SIZE <= blksz
    ensures SharedWalk(count, addr % blksz + XATTR_HDR_SIZE, blksz).Some?
  {
    Bits.ModOfMultiple(addr, blksz, XATTR_ENTRY_SIZE);
    SharedWalkAccepts(count, addr % blksz + XATTR_HDR_SIZE, blksz);
  }

  // ---------------------------------------------------------------------
  // The inline walk accepts exactly the budgets tiled by readable entries.

  /** Number of inline entries an accepting walk consumes. */
  function EntriesConsumed(remaining: int, addr: nat, img: XattrImage): nat
    decreases remaining
  {
    if remaining <= 0 || img.readAt(addr) != 0 || remaining < img.entrySizeAt(addr) then 0
    else 1 + EntriesConsumed(remaining - img.entrySizeAt(addr), addr + img.entrySizeAt(addr), img)
  }

  /** Soundness of acceptance: when the walk accepts a positive budget, the
      entries it read are all readable and their sizes add up to exactly the
      budget — no entry runs past xattr_isize and nothing is left over. */
  lemma {:induction false} InlineAcceptTiles(remaining: int, addr: nat, img: XattrImage)
    requires remaining > 0 && InlineWalk(remaining, addr, img) == 0
    ensures ChainReadable(addr, EntriesConsumed(remaining, addr, img), img)
    ensures ChainSize(addr, EntriesConsumed(remaining, addr, img), img) == remaining
    decreases remaining
  {
    var sz := img.entrySizeAt(addr);
    if remaining - sz > 0 {
      InlineAcceptTiles(remaining - sz, addr + sz, img);
    }
  }

  /** Completeness: a budget tiled exactly by n readable entries is accepted. */
  lemma {:induction false} TiledBudgetAccepted(remaining: int, addr: nat, n: nat, img: XattrImage)
    requires ChainReadable(addr, n, img) && ChainSize(addr, n, img) == remaining
    ensures InlineWalk(remaining, addr, img) == 0
    decreases n
  {
    if n > 0 {
      var sz := img.entrySizeAt(addr);
      TiledBudgetAccepted(remaining - sz, addr + sz, n - 1, img);
    }
  }

  /** Rejection: if n readable entries leave some budget but the next entry
      is larger than what is left, the walk reports corruption. */
  lemma {:induction false} OverrunRejected(remaining: int, addr: nat, n: nat, img: XattrImage)
    requires ChainReadable(addr, n + 1, img)
    requires ChainSize(addr, n, img) < remaining < ChainSize(addr, n + 1, img)
    ensures InlineWalk(remaining, addr, img) == -Errno.EFSCORRUPTED
    decreases n
  {
    if n > 0 {
      var sz := img.entrySizeAt(addr);
      OverrunRejected(remaining - sz, addr + sz, n - 1, img);
    }
  }

  /** An accepted xattr area with room for inline entries is laid out
      exactly: the inline entries that follow the header and the shared
      slots fill the declared size to the byte. */
  lemma AcceptedAreaIsTiled(xattrIsize: nat, addr: nat, img: XattrImage, blksz: nat)
    requires blksz >= 1
    requires VerifyXattr(xattrIsize, addr, img, blksz) == 0
    requires InlineBudget(xattrIsize, img.sharedCount) > 0
    ensures xattrIsize > XATTR_HDR_SIZE
    ensures var first := addr + XATTR_HDR_SIZE + XATTR_ENTRY_SIZE * img.sharedCount;
            var n := EntriesConsumed(InlineBudget(xattrIsize, img.sharedCount), first, img);
            ChainReadable(first, n, img) &&
            XATTR_HDR_SIZE + XATTR_ENTRY_SIZE * img.sharedCount + ChainSize(first, n, img) == xattrIsize
  {
    var first := addr + XATTR_HDR_SIZE + XATTR_ENTRY_SIZE * img.sharedCount;
    InlineAcceptTiles(InlineBudget(xattrIsize, img.sharedCount), first, img);
  }
}
