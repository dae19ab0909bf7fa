/** How fsck checks one inode and classifies what went wrong
    (erofsfsck_check_inode): read the inode, verify its xattrs, extract or
    verify its data according to its file type, walk a directory's entries,
    apply attributes, and fold the result into the global "corrupted" flag.

    Every stage that the model does not look inside (reading the inode, the
    extract_* helpers, data verification, directory iteration) is given by
    its return value. */
module FsckInode {
  import Errno

  /** A return value: 0 or a negative errno. */
  type Status = x: int | x <= 0

  datatype FileType = Directory | Regular | Symlink | CharDev | BlockDev | Fifo | Socket | Unknown

  /** What is done with an inode's data. */
  datatype Action = ExtractDir | ExtractFile | ExtractSymlink | ExtractSpecial | VerifyOnly

  /** The return values of the stages for one inode, and its type and
      whether it is the packed inode. `actRet` is what the chosen extract
      helper returns and `verifyRet` what data verification alone returns. */
  datatype Probe = Probe(readRet: Status, xattrRet: Status, ftype: FileType, packed: bool,
                         actRet: Status, verifyRet: Status, iterateRet: Status)

  /** The result, the updated corrupted flag, and which side effects
      happened: attributes applied to the extracted path, and the directory
      walked. */
  datatype Checked = Checked(ret: Status, corrupted: bool, attrsApplied: bool, iterated: bool)

  /** The file-type dispatch: without an extraction path only the data is
      verified; with one, the packed inode and types other than the seven
      known ones are only verified too. */
  function ActionFor(extracting: bool, ftype: FileType, packed: bool): (a: Action)
    ensures a == VerifyOnly <==> !extracting || ftype == Unknown || (ftype == Regular && packed)
    ensures a == ExtractSpecial <==> extracting && ftype in {CharDev, BlockDev, Fifo, Socket}
  {
    if !extracting then VerifyOnly
    else match ftype
      case Directory => ExtractDir
      case Regular => if packed then VerifyOnly else ExtractFile
      case Symlink => ExtractSymlink
      case CharDev => ExtractSpecial
      case BlockDev => ExtractSpecial
      case Fifo => ExtractSpecial
      case Socket => ExtractSpecial
      case Unknown => VerifyOnly
  }

  /** erofsfsck_check_inode. */
  function CheckInode(extracting: bool, pr: Probe, corrupted: bool): (r: Checked)
    ensures r.ret == -Errno.ECANCELED ==>
              pr.readRet == -Errno.ECANCELED || (pr.readRet == 0 && pr.xattrRet == -Errno.ECANCELED)
    ensures r.corrupted <==> corrupted || (r.ret != 0 && r.ret != -Errno.EIO)
    ensures r.attrsApplied ==> r.ret == 0 && extracting && !pr.packed
    ensures r.iterated ==> pr.ftype == Directory
  {
    var early := if pr.readRet != 0 then pr.readRet else pr.xattrRet;
    if early != 0 then Checked(early, corrupted || early != -Errno.EIO, false, false)
    else
      var stage := if ActionFor(extracting, pr.ftype, pr.packed) == VerifyOnly
                   then pr.verifyRet else pr.actRet;
      if stage != 0 && stage != -Errno.ECANCELED then
        Checked(stage, corrupted || stage != -Errno.EIO, false, false)
      else
        var isDir := pr.ftype == Directory;
        var ret := if isDir then pr.iterateRet else stage;
        var attrs := ret == 0 && !pr.packed && extracting;
        var ret' := if ret == -Errno.ECANCELED then 0 else ret;
        Checked(ret', corrupted || (ret' != 0 && ret' != -Errno.EIO), attrs, isDir)
  }

  /** A special file that could not be created as an ordinary user is
      skipped: the check returns 0 and flags nothing, but the attributes are
      not applied to the missing file. */
  lemma SkippedSpecialIsClean(pr: Probe, corrupted: bool)
    requires pr.readRet == 0 && pr.xattrRet == 0
    requires pr.ftype in {CharDev, BlockDev, Fifo, Socket}
    requires pr.actRet == -Errno.ECANCELED
    ensures var r := CheckInode(true, pr, corrupted);
      r.ret == 0 && r.corrupted == corrupted && !r.attrsApplied && !r.iterated
  {
  }

  /** The directory walk is reached exactly for a directory whose inode,
      xattrs and extract or verify step all passed (with -ECANCELED counting
      as a pass); the directory's result is then the walk's. */
  lemma IterationCondition(extracting: bool, pr: Probe, corrupted: bool)
    ensures var r := CheckInode(extracting, pr, corrupted);
      var stage := if ActionFor(extracting, pr.ftype, pr.packed) == VerifyOnly
                   then pr.verifyRet else pr.actRet;
      && (r.iterated <==>
           pr.ftype == Directory && pr.readRet == 0 && pr.xattrRet == 0 &&
           (stage == 0 || stage == -Errno.ECANCELED))
      && (r.iterated ==> r.ret == (if pr.iterateRet == -Errno.ECANCELED then 0 else pr.iterateRet))
  {
  }

  /** The first failing stage decides the result: a failed inode read or
      xattr check is returned as is, with no data, walk or attribute step. */
  lemma FirstFailureWins(extracting: bool, pr: Probe, corrupted: bool)
    requires pr.readRet != 0 || pr.xattrRet != 0
    ensures var r := CheckInode(extracting, pr, corrupted);
      && r.ret == (if pr.readRet != 0 then pr.readRet else pr.xattrRet)
      && !r.iterated && !r.attrsApplied
  {
  }

  /** Attributes are applied exactly when extracting a non-packed inode
      whose checks (and, for a directory, walk) came out 0. */
  lemma AttributesCondition(extracting: bool, pr: Probe, corrupted: bool)
    ensures var r := CheckInode(extracting, pr, corrupted);
      r.attrsApplied <==>
        && extracting && !pr.packed && pr.readRet == 0 && pr.xattrRet == 0
        && (if pr.ftype == Directory
            then (pr.actRet == 0 || pr.actRet == -Errno.ECANCELED) && pr.iterateRet == 0
            else (if ActionFor(extracting, pr.ftype, pr.packed) == VerifyOnly
                  then pr.verifyRet else pr.actRet) == 0)
  {
  }

  /** An I/O error alone never marks the image corrupted, and once marked
      the flag stays set whatever later inodes return. */
  lemma CorruptedFlagSticky(extracting: bool, pr: Probe)
    ensures CheckInode(extracting, pr, true).corrupted
    ensures CheckInode(extracting, pr, false).ret == -Errno.EIO ==> !CheckInode(extracting, pr, false).corrupted
  {
  }
}
