/** The data-verification walk of fsck (erofs_verify_inode_data), in its
    single-threaded form: dispatch on the data layout, walk the file in
    mapped extents, check and clamp each extent, optionally decode it and
    write it to the extraction target, and account the compression-ratio
    statistics. The block-mapping functions are an oracle from a logical
    position to the extent that starts there. */
module ExtentWalk {
  import Errno
  import opened Outcomes
  import opened Bits
  import PackedInode

  /** The on-disk data layouts (EROFS_INODE_*). */
  const FLAT_PLAIN: nat := 0
  const FLAT_COMPRESSION_LEGACY: nat := 1
  const FLAT_INLINE: nat := 2
  const FLAT_COMPRESSION: nat := 3
  const CHUNK_BASED: nat := 4

  /** The layout dispatch: Some(false) for the layouts read through
      erofs_map_blocks, Some(true) for the compressed layouts read through
      z_erofs_map_blocks_iter, None for anything else. */
  function LayoutKind(layout: nat): (r: Option<bool>)
    ensures r.None? <==> layout > CHUNK_BASED
    ensures r == Some(true) <==> layout == FLAT_COMPRESSION_LEGACY || layout == FLAT_COMPRESSION
  {
    if layout == FLAT_PLAIN || layout == FLAT_INLINE || layout == CHUNK_BASED then Some(false)
    else if layout == FLAT_COMPRESSION_LEGACY || layout == FLAT_COMPRESSION then Some(true)
    else None
  }

  type Positive = n: nat | n >= 1 witness 1
  type NegErrno = x: int | x < 0 witness -1

  /** What the block-mapping oracle answers for a logical position: an error,
      or an extent starting there with its logical length (never 0), physical
      length, and whether it is backed by data (EROFS_MAP_MAPPED). */
  datatype MapReply = MapFailed(err: NegErrno) | Mapped(llen: Positive, plen: nat, mapped: bool)

  type Mapper = nat -> MapReply

  /** One walked extent after clamping: logical start and length, physical
      length, and the mapped flag. */
  datatype Extent = Extent(la: nat, llen: nat, plen: nat, mapped: bool)

  /** The extents visited and how the walk ended: status 0 when the whole
      file was covered, otherwise the error at position `endPos`. */
  datatype WalkTrace = WalkTrace(steps: seq<Extent>, status: int, endPos: nat)

  /** The walk over the file: one mapped extent at a time from `pos` until
      i_size is reached or an extent is refused. Decoding is left to Consume. */
  function Walk(iSize: nat, compressed: bool, mapAt: Mapper, pos: nat): (w: WalkTrace)
    ensures w.status <= 0
    decreases iSize - pos
  {
    if pos >= iSize then WalkTrace([], 0, pos)
    else match mapAt(pos)
      case MapFailed(e) => WalkTrace([], e, pos)
      case Mapped(llen, plen, mapped) =>
        if !compressed && llen != plen then WalkTrace([], -Errno.EFSCORRUPTED, pos)
        else
          var l := if pos + llen > iSize then iSize - pos else llen;
          var rest := Walk(iSize, compressed, mapAt, pos + l);
          WalkTrace([Extent(pos, l, plen, mapped)] + rest.steps, rest.status, rest.endPos)
  }

  /** The extents follow one another without gap or overlap from `from` to
      `to`, and none is empty. */
  ghost predicate Contiguous(steps: seq<Extent>, from: nat, to: nat)
  {
    && (|steps| == 0 ==> from == to)
    && (|steps| > 0 ==> steps[0].la == from && steps[|steps| - 1].la + steps[|steps| - 1].llen == to)
    && (forall i :: 0 <= i < |steps| ==> steps[i].llen >= 1)
    && (forall i :: 0 <= i < |steps| - 1 ==> steps[i + 1].la == steps[i].la + steps[i].llen)
  }

  /** Progress of the walk: the extents tile the file from `pos` up to the
      stopping point, which never passes i_size; the walk reaches i_size
      exactly when it succeeds. */
  lemma {:induction false} WalkProgress(iSize: nat, compressed: bool, mapAt: Mapper, pos: nat)
    requires pos <= iSize
    ensures var w := Walk(iSize, compressed, mapAt, pos);
      && Contiguous(w.steps, pos, w.endPos)
      && pos <= w.endPos <= iSize
      && (w.status == 0 <==> w.endPos == iSize)
    decreases iSize - pos
  {
    if pos < iSize && mapAt(pos).Mapped? {
      var reply := mapAt(pos);
      if compressed || reply.llen == reply.plen {
        var l := if pos + reply.llen > iSize then iSize - pos else reply.llen;
        WalkProgress(iSize, compressed, mapAt, pos + l);
        var rest := Walk(iSize, compressed, mapAt, pos + l);
        var w := Walk(iSize, compressed, mapAt, pos);
        assert w.steps == [Extent(pos, l, reply.plen, reply.mapped)] + rest.steps;
        ContiguousCons(Extent(pos, l, reply.plen, reply.mapped), rest.steps, rest.endPos);
      }
    }
  }

  /** A non-empty extent in front of a tiling that starts where it ends. */
  lemma ContiguousCons(e: Extent, rest: seq<Extent>, to: nat)
    requires e.llen >= 1 && Contiguous(rest, e.la + e.llen, to)
    ensures Contiguous([e] + rest, e.la, to)
  {
    var s := [e] + rest;
    forall i | 0 <= i < |s| - 1
      ensures s[i + 1].la == s[i].la + s[i].llen
    {
      if i > 0 {
        assert s[i] == rest[i - 1];
      }
    }
  }

  /** A walked extent is the oracle's extent at its start, with its logical
      length clamped so that it never passes i_size; on an uncompressed
      layout the oracle's logical and physical lengths agreed. */
  predicate StepOk(e: Extent, iSize: nat, compressed: bool, mapAt: Mapper)
  {
    && mapAt(e.la).Mapped?
    && e.la + e.llen <= iSize
    && e.llen == Min(mapAt(e.la).llen, iSize - e.la)
    && e.plen == mapAt(e.la).plen
    && e.mapped == mapAt(e.la).mapped
    && (!compressed ==> mapAt(e.la).llen == e.plen)
  }

  /** Every walked extent is checked and clamped as StepOk describes. */
  lemma {:induction false} WalkClampsExtents(iSize: nat, compressed: bool, mapAt: Mapper, pos: nat)
    ensures forall i :: 0 <= i < |Walk(iSize, compressed, mapAt, pos).steps| ==>
              StepOk(Walk(iSize, compressed, mapAt, pos).steps[i], iSize, compressed, mapAt)
    decreases iSize - pos
  {
    if pos < iSize && mapAt(pos).Mapped? {
      var reply := mapAt(pos);
      if compressed || reply.llen == reply.plen {
        var l := if pos + reply.llen > iSize then iSize - pos else reply.llen;
        WalkClampsExtents(iSize, compressed, mapAt, pos + l);
        var rest := Walk(iSize, compressed, mapAt, pos + l);
        var w := Walk(iSize, compressed, mapAt, pos);
        assert w.steps == [Extent(pos, l, reply.plen, reply.mapped)] + rest.steps;
        forall i | 0 <= i < |w.steps|
          ensures StepOk(w.steps[i], iSize, compressed, mapAt)
        {
          if i > 0 {
            assert w.steps[i] == rest.steps[i - 1];
          }
        }
      }
    }
  }

  /** A failed walk stops exactly where the mapping failed (with its error)
      or, on an uncompressed layout, where an extent's logical and physical
      lengths disagree (with -EFSCORRUPTED). */
  lemma {:induction false} WalkFailurePoint(iSize: nat, compressed: bool, mapAt: Mapper, pos: nat)
    ensures var w := Walk(iSize, compressed, mapAt, pos);
      w.status != 0 ==>
        && w.endPos < iSize
        && (|| (mapAt(w.endPos).MapFailed? && w.status == mapAt(w.endPos).err)
            || (!compressed && mapAt(w.endPos).Mapped? &&
                mapAt(w.endPos).llen != mapAt(w.endPos).plen && w.status == -Errno.EFSCORRUPTED))
    decreases iSize - pos
  {
    if pos < iSize && mapAt(pos).Mapped? {
      var reply := mapAt(pos);
      if compressed || reply.llen == reply.plen {
        var l := if pos + reply.llen > iSize then iSize - pos else reply.llen;
        WalkFailurePoint(iSize, compressed, mapAt, pos + l);
      }
    }
  }

  /** What the decoder and the output file do with an extent: the decode
      status (0 or a negative errno) and whether writing it fails. */
  datatype DecodeIo = DecodeIo(decode: Extent -> DecodeStatus, writeFails: Extent -> bool)

  type DecodeStatus = x: int | x <= 0

  /** Whether an extent is handed to the decoder: only mapped extents, and
      only when decompression checking is on. */
  predicate NeedsDecode(e: Extent, checkDecomp: bool)
  {
    e.mapped && checkDecomp
  }

  /** The single-threaded consumer: decode every extent that needs it, in
      order, and write it when there is an output file. Stops at the first
      decode error (that error) or write error (-EIO). */
  function Consume(steps: seq<Extent>, checkDecomp: bool, hasOutput: bool, io: DecodeIo)
    : (r: (int, seq<Extent>))
    ensures r.0 <= 0
    decreases |steps|
  {
    if |steps| == 0 then (0, [])
    else
      var e := steps[0];
      if !NeedsDecode(e, checkDecomp) then Consume(steps[1..], checkDecomp, hasOutput, io)
      else if io.decode(e) != 0 then (io.decode(e), [])
      else if !hasOutput then Consume(steps[1..], checkDecomp, hasOutput, io)
      else if io.writeFails(e) then (-Errno.EIO, [])
      else
        var rest := Consume(steps[1..], checkDecomp, hasOutput, io);
        (rest.0, [e] + rest.1)
  }

  /** Compression-ratio statistics, in blocks. */
  datatype Stats = Stats(logicalBlocks: nat, physicalBlocks: nat)

  datatype Inode = Inode(nid: nat, layout: nat, iSize: nat)

  datatype VerifyCfg = VerifyCfg(checkDecomp: bool, printCompRatio: bool, packedNid: nat, blksz: nat)

  predicate ValidCfg(inode: Inode, cfg: VerifyCfg)
  {
    && cfg.blksz >= 1
    && (inode.nid == PackedInode.PACKED_NID_UNALLOCATED ==>
          cfg.packedNid == PackedInode.PACKED_NID_UNALLOCATED)
  }

  /** The statistics update done once a file has been walked to the end:
      the packed inode's own size is left out of the logical total. */
  function Account(stats: Stats, inode: Inode, pchunkLen: nat, cfg: VerifyCfg): Stats
    requires ValidCfg(inode, cfg)
  {
    var logical := if PackedInode.IsPackedInode(inode.nid, cfg.packedNid) then 0
                   else CeilDiv(inode.iSize, cfg.blksz);
    Stats(stats.logicalBlocks + logical, stats.physicalBlocks + CeilDiv(pchunkLen, cfg.blksz))
  }

  function SumPlen(steps: seq<Extent>): nat
  {
    if |steps| == 0 then 0 else steps[0].plen + SumPlen(steps[1..])
  }

  /** What erofs_verify_inode_data produces: its return value, the extents
      written to the output file in order, and the statistics. */
  datatype DataResult = DataResult(ret: int, written: seq<Extent>, stats: Stats)

  /** erofs_verify_inode_data without worker threads. The mapping oracle has
      no side effects, so walking first and decoding afterwards observes the
      same first error as the interleaved loop: a decode or write error at
      an extent comes before any mapping error further on. */
  function VerifyData(inode: Inode, cfg: VerifyCfg, mapAt: Mapper, hasOutput: bool,
                      io: DecodeIo, stats: Stats): (r: DataResult)
    requires ValidCfg(inode, cfg)
    ensures LayoutKind(inode.layout).None? ==> r == DataResult(-Errno.EINVAL, [], stats)
  {
    match LayoutKind(inode.layout)
    case None => DataResult(-Errno.EINVAL, [], stats)
    case Some(compressed) =>
      var w := Walk(inode.iSize, compressed, mapAt, 0);
      var c := Consume(w.steps, cfg.checkDecomp, hasOutput, io);
      var ret := if c.0 != 0 then c.0 else w.status;
      var stats' := if ret == 0 && cfg.printCompRatio
                    then Account(stats, inode, SumPlen(w.steps), cfg) else stats;
      DataResult(if ret < 0 then ret else 0, c.1, stats')
  }

  // ---------------------------------------------------------------------
  // Properties of the consumer and of the whole verification.

  /** The consumer writes a prefix of the extents that need decoding, in
      walk order, and writes only extents that decoded cleanly; it writes
      all of them when it reports success. */
  lemma {:induction false} ConsumeWritesDecodedInOrder(steps: seq<Extent>, checkDecomp: bool,
                                                       hasOutput: bool, io: DecodeIo)
    ensures var r := Consume(steps, checkDecomp, hasOutput, io);
      && (r.0 == 0 || (hasOutput && r.0 == -Errno.EIO) ||
          exists i :: 0 <= i < |steps| && r.0 == io.decode(steps[i]) && NeedsDecode(steps[i], checkDecomp))
      && (hasOutput || r.1 == [])
      && (forall e :: e in r.1 ==> e in steps && NeedsDecode(e, checkDecomp) && io.decode(e) == 0)
      && (hasOutput ==> r.1 <= DecodedExtents(steps, checkDecomp))
      && (r.0 == 0 && hasOutput ==> r.1 == DecodedExtents(steps, checkDecomp))
    decreases |steps|
  {
    if |steps| > 0 {
      ConsumeWritesDecodedInOrder(steps[1..], checkDecomp, hasOutput, io);
      var r := Consume(steps, checkDecomp, hasOutput, io);
      var rest := Consume(steps[1..], checkDecomp, hasOutput, io);
      if r.0 != 0 && r.0 == rest.0 && rest.0 != -Errno.EIO {
        var i :| 0 <= i < |steps[1..]| && rest.0 == io.decode(steps[1..][i])
                 && NeedsDecode(steps[1..][i], checkDecomp);
        assert steps[1..][i] == steps[i + 1];
      }
    }
  }

  /** With an output file, the consumer succeeds exactly when every extent
      it hands to the decoder decodes cleanly and is written without error. */
  lemma {:induction false} ConsumeCleanIff(steps: seq<Extent>, checkDecomp: bool, io: DecodeIo)
    ensures Consume(steps, checkDecomp, true, io).0 == 0 <==>
      forall e :: e in DecodedExtents(steps, checkDecomp) ==> io.decode(e) == 0 && !io.writeFails(e)
    decreases |steps|
  {
    if |steps| > 0 {
      ConsumeCleanIff(steps[1..], checkDecomp, io);
    }
  }

  /** The extents a clean run hands to the output, in walk order. */
  function DecodedExtents(steps: seq<Extent>, checkDecomp: bool): seq<Extent>
  {
    if |steps| == 0 then []
    else if NeedsDecode(steps[0], checkDecomp) then [steps[0]] + DecodedExtents(steps[1..], checkDecomp)
    else DecodedExtents(steps[1..], checkDecomp)
  }

  /** A successful verification covered the whole file with extents that
      stay inside i_size, and the output file received every mapped extent
      in strictly increasing logical order (when decompression checking and
      an output file are on). */
  lemma SuccessCoversFile(inode: Inode, cfg: VerifyCfg, mapAt: Mapper, io: DecodeIo, stats: Stats)
    requires ValidCfg(inode, cfg)
    requires VerifyData(inode, cfg, mapAt, true, io, stats).ret == 0
    ensures LayoutKind(inode.layout).Some?
    ensures var w := Walk(inode.iSize, LayoutKind(inode.layout).value, mapAt, 0);
      && Contiguous(w.steps, 0, inode.iSize)
      && VerifyData(inode, cfg, mapAt, true, io, stats).written == DecodedExtents(w.steps, cfg.checkDecomp)
  {
    var compressed := LayoutKind(inode.layout).value;
    WalkProgress(inode.iSize, compressed, mapAt, 0);
    var w := Walk(inode.iSize, compressed, mapAt, 0);
    ConsumeWritesDecodedInOrder(w.steps, cfg.checkDecomp, true, io);
  }

  /** Logical starts of walked extents strictly increase, so anything taken
      from them in order is written in increasing file order. */
  lemma ContiguousIncreasing(steps: seq<Extent>, from: nat, to: nat, i: nat, j: nat)
    requires Contiguous(steps, from, to)
    requires i < j < |steps|
    ensures steps[i].la + steps[i].llen <= steps[j].la
    decreases j - i
  {
    if i + 1 < j {
      ContiguousIncreasing(steps, from, to, i + 1, j);
    }
  }

  /** Statistics are only accrued for a file walked to its end without
      error, and the packed inode contributes physical blocks only. */
  lemma StatsOnlyOnSuccess(inode: Inode, cfg: VerifyCfg, mapAt: Mapper, hasOutput: bool,
                           io: DecodeIo, stats: Stats)
    requires ValidCfg(inode, cfg)
    ensures var r := VerifyData(inode, cfg, mapAt, hasOutput, io, stats);
      && ((r.ret != 0 || !cfg.printCompRatio) ==> r.stats == stats)
      && ((r.ret == 0 && cfg.printCompRatio && PackedInode.IsPackedInode(inode.nid, cfg.packedNid))
            ==> r.stats.logicalBlocks == stats.logicalBlocks)
      && ((r.ret == 0 && cfg.printCompRatio && !PackedInode.IsPackedInode(inode.nid, cfg.packedNid))
            ==> r.stats.logicalBlocks == stats.logicalBlocks + CeilDiv(inode.iSize, cfg.blksz))
  {
  }
}
