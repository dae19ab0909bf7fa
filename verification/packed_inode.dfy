/** The packed-inode predicate and the compressor window constant of
    include/erofs/compress.h. The packed inode is the special file that holds
    the tail fragments of other files; fsck leaves it out of the logical-size
    statistics and does not extract it. */
module PackedInode {

  /** EROFS_CONFIG_COMPR_MAX_SZ: largest span the compressor and the
      fragment deduplicator look at, in bytes. */
  const COMPR_MAX_SZ: nat := 4000 * 1024

  /** EROFS_PACKED_NID_UNALLOCATED: the node id (-1 as a u64) used while the
      packed inode is being built and has no on-disk location yet. */
  const PACKED_NID_UNALLOCATED: nat := 0xFFFF_FFFF_FFFF_FFFF

  /** erofs_is_packed_inode. `packedNid` is the superblock's packed_nid (0
      when the image has no packed inode). The debug assertion of the source
      becomes the precondition: the unallocated sentinel is only ever seen
      while the superblock's packed_nid is the sentinel too. */
  predicate IsPackedInode(nid: nat, packedNid: nat)
    requires nid == PACKED_NID_UNALLOCATED ==> packedNid == PACKED_NID_UNALLOCATED
  {
    if nid == PACKED_NID_UNALLOCATED then true
    else packedNid > 0 && nid == packedNid
  }

  /** An image without a packed inode (packed_nid == 0) has no packed inode
      other than the unallocated sentinel; in particular the root, whatever
      its nid, is never treated as packed. */
  lemma NoPackedInodeWhenZero(nid: nat)
    requires nid != PACKED_NID_UNALLOCATED
    ensures !IsPackedInode(nid, 0)
  {
  }

  /** Two distinct allocated nodes are never both packed: the predicate picks
      out at most one real inode. */
  lemma AtMostOnePacked(a: nat, b: nat, packedNid: nat)
    requires a != PACKED_NID_UNALLOCATED && b != PACKED_NID_UNALLOCATED
    requires IsPackedInode(a, packedNid) && IsPackedInode(b, packedNid)
    ensures a == b == packedNid
  {
  }
}
