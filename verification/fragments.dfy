/** Tail-fragment deduplication (lib/fragments.c). The tails of files are
    stored back to back in the packed container; each stored tail is also
    kept in one of 65536 buckets chosen by the CRC of its last 16 bytes
    (the "taste"). A later file whose taste hashes to a non-empty bucket
    compares its last min(i_size, COMPR_MAX_SZ) bytes with every candidate
    there: a candidate counts only when its last 16 bytes equal the file's,
    and then the match extends backwards as a common suffix. The longest
    match wins and becomes the file's fragment: a suffix of the winning
    stored tail.

    The CRC (crc32c seeded with ~0) is a function parameter; file and
    container I/O are reduced to success flags and the errno a failure
    leaves behind. */
module Fragments {
  import opened Bits
  import opened Outcomes
  import Errno
  import PackedInode
  import ExtentWalk

  /** EROFS_TOF_HASHLEN: the taste, and the anchor every match starts from. */
  const TOF_HASHLEN: nat := 16

  /** FRAGMENT_HASHSIZE: the number of buckets. */
  const FRAGMENT_HASHSIZE: nat := 65536

  /** Z_EROFS_ADVISE_FRAGMENT_PCLUSTER: the inode's tail lives in the packed
      inode. */
  const ADVISE_FRAGMENT_PCLUSTER: nat := 0x20

  /** 2^32: fragment offsets from here on need the legacy (non-compact)
      index layout. */
  const FRAGMENT_OFF_LIMIT: nat := 0x1_0000_0000

  /** struct erofs_fragment_dedupe_item: a stored tail, its offset in the
      packed container, and the length of the last duplicate found in it. */
  datatype Item = Item(data: seq<byte>, pos: nat, nrDup: nat)

  /** The buckets, keyed by FRAGMENT_HASH(crc); a missing key is an empty
      list. */
  type Table = map<nat, seq<Item>>

  /** What fragments.c reads and writes of an inode. */
  datatype FragInode = FragInode(fragmentSize: nat, fragmentOff: nat, layout: nat, advise: nat)

  /** FRAGMENT_HASH: the low 16 bits of the CRC. */
  function Hash(crc: nat): (h: nat)
    ensures h < FRAGMENT_HASHSIZE
  {
    crc % FRAGMENT_HASHSIZE
  }

  function Bucket(t: Table, h: nat): seq<Item>
  {
    if h in t then t[h] else []
  }

  /** Every stored tail is longer than the taste (the insert guard). */
  predicate Tasty(items: seq<Item>)
  {
    forall k :: 0 <= k < |items| ==> |items[k].data| > TOF_HASHLEN
  }

  predicate TableOk(t: Table)
  {
    forall h :: h in t ==> Tasty(t[h])
  }

  /** The last 16 bytes. */
  function Anchor(x: seq<byte>): (a: seq<byte>)
    requires |x| >= TOF_HASHLEN
    ensures |a| == TOF_HASHLEN
  {
    x[|x| - TOF_HASHLEN..]
  }

  /** The number of equal bytes counting backwards from a[e1 - 1] and
      b[e2 - 1]: the longest common suffix of a[..e1] and b[..e2]. */
  function SuffixMatch(a: seq<byte>, e1: nat, b: seq<byte>, e2: nat): (n: nat)
    requires e1 <= |a| && e2 <= |b|
    ensures n <= e1 && n <= e2
    ensures n < e1 && n < e2 ==> a[e1 - 1 - n] != b[e2 - 1 - n]
    decreases e1
  {
    if e1 == 0 || e2 == 0 || a[e1 - 1] != b[e2 - 1] then 0
    else 1 + SuffixMatch(a, e1 - 1, b, e2 - 1)
  }

  /** Byte t before the ends is one of the counted ones. */
  lemma {:induction false} SuffixMatchAt(a: seq<byte>, e1: nat, b: seq<byte>, e2: nat, t: nat)
    requires e1 <= |a| && e2 <= |b| && t < SuffixMatch(a, e1, b, e2)
    ensures a[e1 - 1 - t] == b[e2 - 1 - t]
    decreases t
  {
    if t > 0 {
      SuffixMatchAt(a, e1 - 1, b, e2 - 1, t - 1);
    }
  }

  /** The counted bytes are a common suffix. */
  lemma {:induction false} SuffixMatchEqual(a: seq<byte>, e1: nat, b: seq<byte>, e2: nat)
    requires e1 <= |a| && e2 <= |b|
    ensures a[e1 - SuffixMatch(a, e1, b, e2)..e1] == b[e2 - SuffixMatch(a, e1, b, e2)..e2]
    decreases e1
  {
    if e1 > 0 && e2 > 0 && a[e1 - 1] == b[e2 - 1] {
      var m := SuffixMatch(a, e1 - 1, b, e2 - 1);
      SuffixMatchUnfold(a, e1, b, e2);
      SuffixMatchEqual(a, e1 - 1, b, e2 - 1);
      ExtendSlice(a, e1 - 1 - m, e1 - 1);
      ExtendSlice(b, e2 - 1 - m, e2 - 1);
      var x, y := a[e1 - 1 - m..e1 - 1], b[e2 - 1 - m..e2 - 1];
      assert a[e1 - 1 - m..e1] == x + [a[e1 - 1]] == y + [b[e2 - 1]] == b[e2 - 1 - m..e2];
    }
  }

  /** Equal last bytes extend the match by one. */
  lemma SuffixMatchUnfold(a: seq<byte>, e1: nat, b: seq<byte>, e2: nat)
    requires 0 < e1 <= |a| && 0 < e2 <= |b| && a[e1 - 1] == b[e2 - 1]
    ensures SuffixMatch(a, e1, b, e2) == 1 + SuffixMatch(a, e1 - 1, b, e2 - 1)
  {
  }

  /** A slice grows by the element after it. */
  lemma ExtendSlice(a: seq<byte>, lo: nat, hi: nat)
    requires lo <= hi < |a|
    ensures a[lo..hi + 1] == a[lo..hi] + [a[hi]]
  {
  }

  /** No longer common suffix exists. */
  lemma {:induction false} SuffixMatchLongest(a: seq<byte>, e1: nat, b: seq<byte>, e2: nat, k: nat)
    requires k <= e1 <= |a| && k <= e2 <= |b| && a[e1 - k..e1] == b[e2 - k..e2]
    ensures k <= SuffixMatch(a, e1, b, e2)
    decreases k
  {
    if k > 0 {
      assert a[e1 - 1] == a[e1 - k..e1][k - 1] == b[e2 - k..e2][k - 1] == b[e2 - 1];
      assert a[e1 - k..e1 - 1] == a[e1 - k..e1][..k - 1];
      assert b[e2 - k..e2 - 1] == b[e2 - k..e2][..k - 1];
      SuffixMatchLongest(a, e1 - 1, b, e2 - 1, k - 1);
      SuffixMatchUnfold(a, e1, b, e2);
    }
  }

  /** The backward comparison loop of z_erofs_fragments_dedupe_find. */
  method CountBack(a: seq<byte>, e1: nat, b: seq<byte>, e2: nat) returns (i: nat)
    requires e1 <= |a| && e2 <= |b|
    ensures i == SuffixMatch(a, e1, b, e2)
  {
    var mn := if e1 < e2 then e1 else e2;
    i := 0;
    while i < mn && a[e1 - i - 1] == b[e2 - i - 1]
      invariant i <= mn
      invariant SuffixMatch(a, e1, b, e2) == i + SuffixMatch(a, e1 - i, b, e2 - i)
    {
      SuffixMatchStep(a, e1, b, e2, i);
      i := i + 1;
    }
    SuffixMatchStop(a, e1, b, e2, i);
  }

  /** One more equal byte, i bytes before the ends, extends the match by
      one. */
  lemma SuffixMatchStep(a: seq<byte>, e1: nat, b: seq<byte>, e2: nat, i: nat)
    requires e1 <= |a| && e2 <= |b| && i < e1 && i < e2 && a[e1 - i - 1] == b[e2 - i - 1]
    ensures SuffixMatch(a, e1 - i, b, e2 - i) == 1 + SuffixMatch(a, e1 - (i + 1), b, e2 - (i + 1))
  {
  }

  /** A differing byte, or the start of either side, ends the match. */
  lemma SuffixMatchStop(a: seq<byte>, e1: nat, b: seq<byte>, e2: nat, i: nat)
    requires e1 <= |a| && e2 <= |b| && i <= e1 && i <= e2
    requires i == e1 || i == e2 || a[e1 - i - 1] != b[e2 - i - 1]
    ensures SuffixMatch(a, e1 - i, b, e2 - i) == 0
  {
  }

  /** How far a candidate extends the match beyond the anchor: 0 when the
      anchors differ. */
  function Gain(data: seq<byte>, window: seq<byte>): (g: nat)
    requires |data| > TOF_HASHLEN && |window| > TOF_HASHLEN
    ensures g <= |data| - TOF_HASHLEN && g <= |window| - TOF_HASHLEN
  {
    if Anchor(data) != Anchor(window) then 0
    else SuffixMatch(data, |data| - TOF_HASHLEN, window, |window| - TOF_HASHLEN)
  }

  /** The match reaches the start of the shorter side. */
  predicate Full(data: seq<byte>, window: seq<byte>)
    requires |data| > TOF_HASHLEN && |window| > TOF_HASHLEN
  {
    Gain(data, window) == Min(|data| - TOF_HASHLEN, |window| - TOF_HASHLEN)
  }

  /** The scan changes nothing but nrDup. */
  predicate SameData(items: seq<Item>, items': seq<Item>)
  {
    |items'| == |items| &&
    forall k :: 0 <= k < |items| ==> items'[k].data == items[k].data && items'[k].pos == items[k].pos
  }

  /** Each candidate's gain against the window, computed from the stored
      tails (which the scan never changes). */
  function Gains(items: seq<Item>, window: seq<byte>): (gs: seq<nat>)
    requires Tasty(items) && |window| > TOF_HASHLEN
    ensures |gs| == |items|
    ensures forall j :: 0 <= j < |items| ==> gs[j] == Gain(items[j].data, window)
  {
    seq(|items|, j requires 0 <= j < |items| => Gain(items[j].data, window))
  }

  /** Which candidates match the window fully. */
  function Fulls(items: seq<Item>, window: seq<byte>): (fs: seq<bool>)
    requires Tasty(items) && |window| > TOF_HASHLEN
    ensures |fs| == |items|
    ensures forall j :: 0 <= j < |items| ==> fs[j] == Full(items[j].data, window)
  {
    seq(|items|, j requires 0 <= j < |items| => Full(items[j].data, window))
  }

  /** The scan state `best` names a candidate before k whose nrDup is its
      match length. */
  predicate BestOk(items: seq<Item>, gs: seq<nat>, k: nat, best: Option<nat>)
    requires |gs| == |items|
  {
    best.Some? ==> best.value < k && best.value < |items| && gs[best.value] > 0 &&
                   items[best.value].nrDup == gs[best.value] + TOF_HASHLEN
  }

  /** One candidate, with gain gs[k]: one with a positive gain that beats
      the best's nrDup becomes the best and has its nrDup set, and a full
      match stops the loop. Returns the items, the best and whether to
      stop. */
  function ScanStep(items: seq<Item>, gs: seq<nat>, fs: seq<bool>, k: nat, best: Option<nat>)
    : (r: (seq<Item>, Option<nat>, bool))
    requires |gs| == |items| && |fs| == |items| && k < |items|
    requires BestOk(items, gs, k, best)
    ensures SameData(items, r.0) && BestOk(r.0, gs, k + 1, r.1)
    ensures r.2 ==> r.1 == Some(k)
  {
    if gs[k] > 0 && (best.None? || gs[k] + TOF_HASHLEN > items[best.value].nrDup) then
      (items[k := items[k].(nrDup := gs[k] + TOF_HASHLEN)], Some(k), fs[k])
    else (items, best, false)
  }

  /** The candidate loop from position k with the best so far. */
  function ScanFrom(items: seq<Item>, gs: seq<nat>, fs: seq<bool>, k: nat, best: Option<nat>)
    : (r: (seq<Item>, Option<nat>))
    requires |gs| == |items| && |fs| == |items| && k <= |items|
    requires BestOk(items, gs, k, best)
    ensures SameData(items, r.0) && BestOk(r.0, gs, |items|, r.1)
    decreases |items| - k
  {
    if k == |items| then (items, best)
    else
      var s := ScanStep(items, gs, fs, k, best);
      if s.2 then (s.0, s.1)
      else ScanFrom(s.0, gs, fs, k + 1, s.1)
  }

  /** The candidate loop of z_erofs_fragments_dedupe_find over a bucket:
      the bucket with nrDup stamped, and the chosen candidate, whose nrDup
      is its match length including the anchor. */
  function Scan(items: seq<Item>, window: seq<byte>): (r: (seq<Item>, Option<nat>))
    requires Tasty(items) && |window| > TOF_HASHLEN
    ensures SameData(items, r.0)
    ensures r.1.Some? ==> r.1.value < |items| && Gain(items[r.1.value].data, window) > 0 &&
                          r.0[r.1.value].nrDup == Gain(items[r.1.value].data, window) + TOF_HASHLEN
  {
    ScanFrom(items, Gains(items, window), Fulls(items, window), 0, None)
  }

  /** The winner among candidates with gains gs: none exactly when every
      gain is 0; otherwise one with a positive gain, strictly better than
      every earlier candidate (ties keep the earlier one), and at least as
      good as every later one unless it was a full match that ended the
      scan. */
  ghost predicate Winner(gs: seq<nat>, fs: seq<bool>, w: Option<nat>)
    requires |fs| == |gs|
  {
    && (w.None? <==> forall j :: 0 <= j < |gs| ==> gs[j] == 0)
    && (w.Some? ==>
          && w.value < |gs|
          && gs[w.value] > 0
          && (forall j :: 0 <= j < w.value ==> gs[j] < gs[w.value])
          && (!fs[w.value] ==> forall j :: w.value < j < |gs| ==> gs[j] <= gs[w.value]))
  }

  /** What the scan has established about candidates before k. */
  ghost predicate ScannedTo(gs: seq<nat>, fs: seq<bool>, k: nat, best: Option<nat>)
    requires |fs| == |gs| && k <= |gs|
  {
    && (best.None? ==> forall j :: 0 <= j < k ==> gs[j] == 0)
    && (best.Some? ==>
          && best.value < k
          && gs[best.value] > 0
          && !fs[best.value]
          && (forall j :: 0 <= j < best.value ==> gs[j] < gs[best.value])
          && (forall j :: best.value < j < k ==> gs[j] <= gs[best.value]))
  }

  /** The scan picks the winner. */
  lemma {:induction false} ScanPicksWinner(items: seq<Item>, gs: seq<nat>, fs: seq<bool>, k: nat,
                                           best: Option<nat>, w: Option<nat>)
    requires |gs| == |items| && |fs| == |items| && k <= |items|
    requires BestOk(items, gs, k, best) && ScannedTo(gs, fs, k, best)
    requires w == ScanFrom(items, gs, fs, k, best).1
    ensures Winner(gs, fs, w)
    decreases |items| - k
  {
    if k < |items| {
      var s := ScanStep(items, gs, fs, k, best);
      StepScanned(items, gs, fs, k, best);
      if s.2 {
        assert w == s.1;
      } else {
        ScanPicksWinner(s.0, gs, fs, k + 1, s.1, w);
      }
    } else {
      assert w == best;
      ScannedAll(gs, fs, best);
    }
  }

  /** One step of the scan either ends it on the winner or extends what it
      has established by one candidate. */
  lemma StepScanned(items: seq<Item>, gs: seq<nat>, fs: seq<bool>, k: nat, best: Option<nat>)
    requires |gs| == |items| && |fs| == |items| && k < |items|
    requires BestOk(items, gs, k, best) && ScannedTo(gs, fs, k, best)
    ensures ScanStep(items, gs, fs, k, best).2 ==> Winner(gs, fs, ScanStep(items, gs, fs, k, best).1)
    ensures !ScanStep(items, gs, fs, k, best).2 ==> ScannedTo(gs, fs, k + 1, ScanStep(items, gs, fs, k, best).1)
  {
    if gs[k] > 0 && (best.None? || gs[k] + TOF_HASHLEN > items[best.value].nrDup) {
      if fs[k] {
        NewBestWins(gs, fs, k, best);
      } else {
        NewBestScanned(gs, fs, k, best);
      }
    } else {
      KeptBestScanned(gs, fs, k, best);
    }
  }

  /** Once every candidate is scanned, the best so far is the winner. */
  lemma ScannedAll(gs: seq<nat>, fs: seq<bool>, best: Option<nat>)
    requires |fs| == |gs| && ScannedTo(gs, fs, |gs|, best)
    ensures Winner(gs, fs, best)
  {
  }

  /** A candidate that beats the best so far beats everything before it. */
  lemma NewBestBeats(gs: seq<nat>, fs: seq<bool>, k: nat, best: Option<nat>)
    requires |fs| == |gs| && k < |gs| && ScannedTo(gs, fs, k, best)
    requires gs[k] > 0 && (best.Some? ==> gs[k] > gs[best.value])
    ensures forall j :: 0 <= j < k ==> gs[j] < gs[k]
  {
  }

  /** A full match that beats the best so far is the winner. */
  lemma NewBestWins(gs: seq<nat>, fs: seq<bool>, k: nat, best: Option<nat>)
    requires |fs| == |gs| && k < |gs| && ScannedTo(gs, fs, k, best)
    requires gs[k] > 0 && fs[k] && (best.Some? ==> gs[k] > gs[best.value])
    ensures Winner(gs, fs, Some(k))
  {
    NewBestBeats(gs, fs, k, best);
  }

  /** A partial match that beats the best so far becomes the best. */
  lemma NewBestScanned(gs: seq<nat>, fs: seq<bool>, k: nat, best: Option<nat>)
    requires |fs| == |gs| && k < |gs| && ScannedTo(gs, fs, k, best)
    requires gs[k] > 0 && !fs[k] && (best.Some? ==> gs[k] > gs[best.value])
    ensures ScannedTo(gs, fs, k + 1, Some(k))
  {
    NewBestBeats(gs, fs, k, best);
  }

  /** A candidate that does not beat the best leaves it the best. */
  lemma KeptBestScanned(gs: seq<nat>, fs: seq<bool>, k: nat, best: Option<nat>)
    requires |fs| == |gs| && k < |gs| && ScannedTo(gs, fs, k, best)
    requires best.None? ==> gs[k] == 0
    requires best.Some? ==> gs[k] <= gs[best.value]
    ensures ScannedTo(gs, fs, k + 1, best)
  {
  }

  /** The candidate loop of z_erofs_fragments_dedupe_find picks the
      winner by gain. */
  lemma ScanWinner(items: seq<Item>, window: seq<byte>)
    requires Tasty(items) && |window| > TOF_HASHLEN
    ensures Winner(Gains(items, window), Fulls(items, window), Scan(items, window).1)
  {
    var gs, fs := Gains(items, window), Fulls(items, window);
    ScanPicksWinner(items, gs, fs, 0, None, ScanFrom(items, gs, fs, 0, None).1);
  }

  /** The I/O of one dedupe attempt: seeking to and reading the taste,
      seeking to and reading the comparison window, rewinding the file,
      and the errno a failure leaves. */
  datatype DedupeIo = DedupeIo(tasteSeekOk: bool, tasteReadOk: bool, windowSeekOk: bool, windowReadOk: bool,
                               rewindOk: bool, errno: nat)

  /** The comparison window: the file's last min(i_size, COMPR_MAX_SZ)
      bytes. */
  function Window(content: seq<byte>): (w: seq<byte>)
    ensures |w| == Min(|content|, PackedInode.COMPR_MAX_SZ)
    ensures w == content[|content| - |w|..]
  {
    content[|content| - Min(|content|, PackedInode.COMPR_MAX_SZ)..]
  }

  /** z_erofs_fragments_dedupe_find (allocation failure aside): the return
      value, the inode and the table. */
  function DedupeFind(ino: FragInode, content: seq<byte>, crc: nat, t: Table, io: DedupeIo)
    : (r: (int, FragInode, Table))
    requires |content| > TOF_HASHLEN && Tasty(Bucket(t, Hash(crc)))
    ensures |Bucket(t, Hash(crc))| == 0 ==> r == (0, ino, t)
    ensures |Bucket(t, Hash(crc))| > 0 && (!io.windowSeekOk || !io.windowReadOk) ==>
              r == (-(io.errno as int), ino, t)
    ensures |Bucket(t, Hash(crc))| > 0 && io.windowSeekOk && io.windowReadOk ==>
              r.0 == Min(|content|, PackedInode.COMPR_MAX_SZ) && r.2.Keys == t.Keys
    ensures r.1.layout == ino.layout && r.1.advise == ino.advise
    ensures r.1 != ino ==> r.1.fragmentSize > TOF_HASHLEN
    ensures forall h :: h != Hash(crc) ==> Bucket(r.2, h) == Bucket(t, h)
  {
    var items := Bucket(t, Hash(crc));
    if |items| == 0 then (0, ino, t)
    else if !io.windowSeekOk || !io.windowReadOk then (-(io.errno as int), ino, t)
    else
      var s := Scan(items, Window(content));
      var t' := t[Hash(crc) := s.0];
      match s.1
      case None => (|Window(content)|, ino, t')
      case Some(k) => (|Window(content)|, Adopt(ino, s.0[k]), t')
  }

  /** The inode takes the last nrDup bytes of a stored tail as its
      fragment. */
  function Adopt(ino: FragInode, it: Item): (r: FragInode)
    requires it.nrDup <= it.pos + |it.data|
    ensures r.fragmentSize == it.nrDup && r.fragmentOff + r.fragmentSize == it.pos + |it.data|
    ensures r.layout == ino.layout && r.advise == ino.advise
  {
    ino.(fragmentSize := it.nrDup, fragmentOff := it.pos + |it.data| - it.nrDup)
  }

  /** What z_erofs_fragments_dedupe leaves: its return value, the inode,
      the buckets and *tofcrc (None when it was not written). */
  datatype DedupeOut = DedupeOut(ret: int, inode: FragInode, table: Table, tofcrc: Option<nat>)

  /** z_erofs_fragments_dedupe. Files of at most 16 bytes are never
      deduplicated and leave everything as it was. */
  function Dedupe(ino: FragInode, content: seq<byte>, crc32c: seq<byte> -> nat, t: Table, io: DedupeIo)
    : (r: DedupeOut)
    requires TableOk(t)
    ensures |content| <= TOF_HASHLEN ==> r == DedupeOut(0, ino, t, None)
    ensures r.tofcrc.Some? <==> |content| > TOF_HASHLEN && io.tasteSeekOk && io.tasteReadOk
    ensures r.tofcrc.Some? ==> r.tofcrc.value == crc32c(Anchor(content))
    ensures r.table.Keys == t.Keys
  {
    if |content| <= TOF_HASHLEN then DedupeOut(0, ino, t, None)
    else if !io.tasteSeekOk || !io.tasteReadOk then DedupeOut(-(io.errno as int), ino, t, None)
    else
      var crc := crc32c(Anchor(content));
      var f := DedupeFind(ino, content, crc, t, io);
      if f.0 < 0 then DedupeOut(f.0, f.1, f.2, Some(crc))
      else if !io.rewindOk then DedupeOut(-(io.errno as int), f.1, f.2, Some(crc))
      else DedupeOut(0, f.1, f.2, Some(crc))
  }

  /** z_erofs_fragments_dedupe_insert (allocation failure aside): tails of
      at most 16 bytes are not kept; longer ones go to the tail of their
      bucket with nrDup 0, and no other bucket changes. */
  function Insert(t: Table, data: seq<byte>, pos: nat, crc: nat): (r: Table)
    ensures |data| <= TOF_HASHLEN ==> r == t
    ensures |data| > TOF_HASHLEN ==> Bucket(r, Hash(crc)) == Bucket(t, Hash(crc)) + [Item(data, pos, 0)]
    ensures forall h :: h != Hash(crc) ==> Bucket(r, h) == Bucket(t, h)
  {
    if |data| <= TOF_HASHLEN then t
    else t[Hash(crc) := Bucket(t, Hash(crc)) + [Item(data, pos, 0)]]
  }

  /** The I/O of packing a tail: telling the container's position, then
      writing the tail. */
  datatype PackIo = PackIo(tellOk: bool, writeOk: bool, errno: nat)

  /** What z_erofs_pack_fragments leaves: its return value, the inode, the
      container's bytes and the buckets. */
  datatype PackOut = PackOut(ret: int, inode: FragInode, container: seq<byte>, table: Table)

  /** z_erofs_pack_fragments. The container is only ever appended to, so
      its position is its length. */
  function PackFragments(ino: FragInode, container: seq<byte>, data: seq<byte>, tofcrc: nat, t: Table, io: PackIo)
    : (r: PackOut)
    ensures !io.tellOk ==> r == PackOut(-(io.errno as int), ino, container, t)
    ensures io.tellOk ==> r.inode == ino.(fragmentOff := |container|, fragmentSize := |data|)
    ensures io.tellOk && !io.writeOk ==> r.ret == -Errno.EIO && r.container == container && r.table == t
    ensures io.tellOk && io.writeOk ==>
              && r.ret == |data|
              && |r.container| == |container| + |data|
              && r.container[..|container|] == container
              && r.container[r.inode.fragmentOff..] == data
  {
    if !io.tellOk then PackOut(-(io.errno as int), ino, container, t)
    else
      var ino' := ino.(fragmentOff := |container|, fragmentSize := |data|);
      if !io.writeOk then PackOut(-Errno.EIO, ino', container, t)
      else PackOut(|data|, ino', container + data, Insert(t, data, |container|, tofcrc))
  }

  /** advise | bit, for a single-bit mask. */
  function SetFlag(advise: nat, bit: nat): (r: nat)
    requires bit >= 1
    ensures (r / bit) % 2 == 1
    ensures r % bit == advise % bit && r / bit / 2 == advise / bit / 2
  {
    if (advise / bit) % 2 == 1 then advise
    else
      DivModUnique(advise + bit, bit, advise / bit + 1, advise % bit);
      advise + bit
  }

  /** z_erofs_fragments_commit: the inode and whether the fragments feature
      is now set in the superblock. */
  function Commit(ino: FragInode): (r: (FragInode, bool))
    ensures ino.fragmentSize == 0 ==> r == (ino, false)
    ensures ino.fragmentSize > 0 ==>
              && r.1
              && r.0.fragmentSize == ino.fragmentSize && r.0.fragmentOff == ino.fragmentOff
              && (r.0.layout == if ino.fragmentOff >= FRAGMENT_OFF_LIMIT then ExtentWalk.FLAT_COMPRESSION_LEGACY
                                else ino.layout)
              && (r.0.advise / ADVISE_FRAGMENT_PCLUSTER) % 2 == 1
              && r.0.advise % ADVISE_FRAGMENT_PCLUSTER == ino.advise % ADVISE_FRAGMENT_PCLUSTER
              && r.0.advise / ADVISE_FRAGMENT_PCLUSTER / 2 == ino.advise / ADVISE_FRAGMENT_PCLUSTER / 2
    ensures r.0 == ino.(layout := r.0.layout, advise := r.0.advise)
  {
    if ino.fragmentSize == 0 then (ino, false)
    else
      var layout := if ino.fragmentOff / FRAGMENT_OFF_LIMIT != 0 then ExtentWalk.FLAT_COMPRESSION_LEGACY
                    else ino.layout;
      (ino.(layout := layout, advise := SetFlag(ino.advise, ADVISE_FRAGMENT_PCLUSTER)), true)
  }

  /** Committing an inode a second time changes nothing: the flag is
      already set and the layout already switched. */
  lemma CommitIdempotent(ino: FragInode)
    ensures Commit(Commit(ino).0) == Commit(ino)
  {
  }

  /** Every stored tail sits in the container at its recorded offset. */
  ghost predicate Backed(container: seq<byte>, items: seq<Item>)
  {
    forall k :: 0 <= k < |items| ==>
      items[k].pos + |items[k].data| <= |container| &&
      container[items[k].pos..items[k].pos + |items[k].data|] == items[k].data
  }

  /** The buckets hold only tails longer than the taste, each backed by the
      container. */
  ghost predicate StoreOk(container: seq<byte>, t: Table)
  {
    TableOk(t) && forall h :: h in t ==> Backed(container, t[h])
  }

  /** The inode's fragment, read from the container, is the file's tail. */
  ghost predicate TailBacked(container: seq<byte>, ino: FragInode, content: seq<byte>)
  {
    && ino.fragmentSize <= |content|
    && ino.fragmentOff + ino.fragmentSize <= |container|
    && container[ino.fragmentOff..ino.fragmentOff + ino.fragmentSize] == content[|content| - ino.fragmentSize..]
  }

  /** Some candidate in the file's bucket shares its anchor and at least
      one byte before it. */
  ghost predicate HasCandidate(t: Table, content: seq<byte>, crc32c: seq<byte> -> nat)
    requires |content| > TOF_HASHLEN && TableOk(t)
  {
    exists j :: 0 <= j < |Bucket(t, Hash(crc32c(Anchor(content))))| &&
      Gain(Bucket(t, Hash(crc32c(Anchor(content))))[j].data, Window(content)) > 0
  }

  /** The anchor and the counted bytes before it together: the last g + 16
      bytes of both sides agree. */
  lemma SpanMatches(data: seq<byte>, window: seq<byte>)
    requires |data| > TOF_HASHLEN && |window| > TOF_HASHLEN && Anchor(data) == Anchor(window)
    ensures data[|data| - (Gain(data, window) + TOF_HASHLEN)..] ==
            window[|window| - (Gain(data, window) + TOF_HASHLEN)..]
  {
    var e1, e2 := |data| - TOF_HASHLEN, |window| - TOF_HASHLEN;
    SuffixMatchEqual(data, e1, window, e2);
    JoinTails(data, e1, window, e2, SuffixMatch(data, e1, window, e2));
  }

  /** Equal stretches before equal tails make equal longer tails. */
  lemma JoinTails(x: seq<byte>, e1: nat, y: seq<byte>, e2: nat, g: nat)
    requires g <= e1 <= |x| && g <= e2 <= |y| && |x| - e1 == |y| - e2
    requires x[e1..] == y[e2..] && x[e1 - g..e1] == y[e2 - g..e2]
    ensures x[e1 - g..] == y[e2 - g..]
  {
    assert x[e1 - g..] == x[e1 - g..e1] + x[e1..];
    assert y[e2 - g..] == y[e2 - g..e2] + y[e2..];
  }

  /** The last m bytes of a slice are the last m bytes of what it equals. */
  lemma SliceSuffix(x: seq<byte>, lo: nat, hi: nat, y: seq<byte>, m: nat)
    requires lo <= hi <= |x| && x[lo..hi] == y && m <= |y|
    ensures x[hi - m..hi] == y[|y| - m..]
  {
    var u, v := x[hi - m..hi], y[|y| - m..];
    forall i | 0 <= i < m
      ensures u[i] == v[i]
    {
      assert u[i] == x[lo..hi][|y| - m + i];
    }
  }

  /** Dedupe leaves every tail where it was. */
  lemma BackedSameData(container: seq<byte>, items: seq<Item>, items': seq<Item>)
    requires Backed(container, items) && SameData(items, items')
    ensures Backed(container, items')
  {
    forall k | 0 <= k < |items'|
      ensures items'[k].pos + |items'[k].data| <= |container|
      ensures container[items'[k].pos..items'[k].pos + |items'[k].data|] == items'[k].data
    {
      assert items'[k].data == items[k].data && items'[k].pos == items[k].pos;
    }
  }

  /** The winner's span, read from the container, is the file's tail. */
  lemma WinnerBacked(container: seq<byte>, items: seq<Item>, content: seq<byte>, stamped: seq<Item>, k: nat,
                     ino: FragInode)
    requires Backed(container, items) && SameData(items, stamped) && k < |items|
    requires TOF_HASHLEN < ino.fragmentSize <= |items[k].data| && ino.fragmentSize <= |Window(content)|
    requires items[k].data[|items[k].data| - ino.fragmentSize..] ==
             Window(content)[|Window(content)| - ino.fragmentSize..]
    requires ino.fragmentOff + ino.fragmentSize == stamped[k].pos + |stamped[k].data|
    ensures TailBacked(container, ino, content)
  {
    var data, window := items[k].data, Window(content);
    assert stamped[k].data == data && stamped[k].pos == items[k].pos;
    assert container[items[k].pos..items[k].pos + |data|] == data;
    TailFromSpan(container, items[k].pos, data, window, content, ino.fragmentSize, ino.fragmentOff);
  }

  /** A candidate with a positive gain matches the file on its last
      gain + 16 bytes. */
  lemma WinnerSpan(data: seq<byte>, window: seq<byte>)
    requires |data| > TOF_HASHLEN && |window| > TOF_HASHLEN && Gain(data, window) > 0
    ensures data[|data| - (Gain(data, window) + TOF_HASHLEN)..] ==
            window[|window| - (Gain(data, window) + TOF_HASHLEN)..]
  {
    SpanMatches(data, window);
  }

  /** A span of a stored tail that matches the window's tail reads back,
      from the container, as the file's tail. */
  lemma TailFromSpan(container: seq<byte>, pos: nat, data: seq<byte>, window: seq<byte>, content: seq<byte>,
                     m: nat, off: nat)
    requires pos + |data| <= |container| && container[pos..pos + |data|] == data
    requires |window| <= |content| && window == content[|content| - |window|..]
    requires m <= |data| && m <= |window| && data[|data| - m..] == window[|window| - m..]
    requires off + m == pos + |data|
    ensures off + m <= |container| && container[off..off + m] == content[|content| - m..]
  {
    SliceSuffix(container, pos, pos + |data|, data, m);
    SliceSuffix(content, |content| - |window|, |content|, window, m);
  }

  /** Dedupe keeps the store consistent: it only touches nrDup. */
  lemma DedupeKeepsStore(ino: FragInode, content: seq<byte>, crc32c: seq<byte> -> nat, t: Table, io: DedupeIo,
                         container: seq<byte>)
    requires StoreOk(container, t)
    ensures StoreOk(container, Dedupe(ino, content, crc32c, t, io).table)
  {
    if |content| > TOF_HASHLEN && io.tasteSeekOk && io.tasteReadOk {
      var h := Hash(crc32c(Anchor(content)));
      var items := Bucket(t, h);
      if |items| > 0 && io.windowSeekOk && io.windowReadOk {
        var s := Scan(items, Window(content));
        BackedSameData(container, items, s.0);
        assert Dedupe(ino, content, crc32c, t, io).table == t[h := s.0];
      }
    }
  }

  /** The scan finds no winner exactly when no candidate has a positive
      gain. */
  lemma ScanNone(items: seq<Item>, window: seq<byte>)
    requires Tasty(items) && |window| > TOF_HASHLEN
    ensures Scan(items, window).1.None? <==> forall j :: 0 <= j < |items| ==> Gain(items[j].data, window) == 0
  {
    ScanWinner(items, window);
  }

  /** The scan's winner, adopted as the inode's fragment, reads back from
      the container as the file's tail. */
  lemma ScanSomeBacked(container: seq<byte>, items: seq<Item>, content: seq<byte>, ino: FragInode)
    requires |content| > TOF_HASHLEN && Tasty(items) && Backed(container, items)
    requires Scan(items, Window(content)).1.Some?
    ensures var s := Scan(items, Window(content));
              && s.0[s.1.value].nrDup <= s.0[s.1.value].pos + |s.0[s.1.value].data|
              && TailBacked(container, Adopt(ino, s.0[s.1.value]), content)
              && Adopt(ino, s.0[s.1.value]).fragmentSize > TOF_HASHLEN
  {
    var window := Window(content);
    var s := Scan(items, window);
    var k := s.1.value;
    var data := items[k].data;
    assert s.0[k].data == data && s.0[k].pos == items[k].pos;
    WinnerSpan(data, window);
    WinnerBacked(container, items, content, s.0, k, Adopt(ino, s.0[k]));
  }

  /** The scan's winner, adopted as the inode's fragment, reads back from
      the container as the file's tail; there is a winner exactly when
      some candidate has a positive gain. */
  lemma ScanBacked(container: seq<byte>, items: seq<Item>, content: seq<byte>, ino: FragInode)
    requires |content| > TOF_HASHLEN && Tasty(items) && Backed(container, items)
    ensures Scan(items, Window(content)).1.None? <==>
            forall j :: 0 <= j < |items| ==> Gain(items[j].data, Window(content)) == 0
    ensures Scan(items, Window(content)).1.Some? ==>
              var s := Scan(items, Window(content));
              && s.0[s.1.value].nrDup <= s.0[s.1.value].pos + |s.0[s.1.value].data|
              && TailBacked(container, Adopt(ino, s.0[s.1.value]), content)
              && Adopt(ino, s.0[s.1.value]).fragmentSize > TOF_HASHLEN
  {
    ScanNone(items, Window(content));
    if Scan(items, Window(content)).1.Some? {
      ScanSomeBacked(container, items, content, ino);
    }
  }

  /** With every read succeeding, dedupe returns 0, and it takes a fragment
      exactly when some candidate shares the anchor and at least one more
      byte: the fragment, read from the container, is the file's tail and
      is longer than the anchor. Otherwise the inode is left as it was. */
  lemma DedupeFinds(ino: FragInode, content: seq<byte>, crc32c: seq<byte> -> nat, t: Table, io: DedupeIo,
                    container: seq<byte>)
    requires StoreOk(container, t) && |content| > TOF_HASHLEN
    requires io.tasteSeekOk && io.tasteReadOk && io.windowSeekOk && io.windowReadOk && io.rewindOk
    ensures Dedupe(ino, content, crc32c, t, io).ret == 0
    ensures HasCandidate(t, content, crc32c) ==>
              TailBacked(container, Dedupe(ino, content, crc32c, t, io).inode, content) &&
              Dedupe(ino, content, crc32c, t, io).inode.fragmentSize > TOF_HASHLEN
    ensures !HasCandidate(t, content, crc32c) ==> Dedupe(ino, content, crc32c, t, io).inode == ino
  {
    var items := Bucket(t, Hash(crc32c(Anchor(content))));
    assert Tasty(items) && Backed(container, items);
    ScanBacked(container, items, content, ino);
  }

  /** Whatever happens, dedupe either leaves the inode alone or gives it a
      fragment that reads back as the file's tail. */
  lemma DedupeSound(ino: FragInode, content: seq<byte>, crc32c: seq<byte> -> nat, t: Table, io: DedupeIo,
                    container: seq<byte>)
    requires StoreOk(container, t)
    ensures Dedupe(ino, content, crc32c, t, io).inode == ino ||
            (TailBacked(container, Dedupe(ino, content, crc32c, t, io).inode, content) &&
             Dedupe(ino, content, crc32c, t, io).inode.fragmentSize > TOF_HASHLEN)
  {
    if |content| > TOF_HASHLEN {
      var items := Bucket(t, Hash(crc32c(Anchor(content))));
      assert Tasty(items) && Backed(container, items);
      ScanBacked(container, items, content, ino);
    }
  }

  /** Packing appends the tail and keeps the store consistent; on success
      the inode's fragment reads back as the packed bytes. */
  lemma PackKeepsStore(ino: FragInode, container: seq<byte>, data: seq<byte>, tofcrc: nat, t: Table,
                       io: PackIo)
    requires StoreOk(container, t)
    ensures StoreOk(PackFragments(ino, container, data, tofcrc, t, io).container,
                    PackFragments(ino, container, data, tofcrc, t, io).table)
    ensures io.tellOk && io.writeOk ==>
              TailBacked(PackFragments(ino, container, data, tofcrc, t, io).container,
                         PackFragments(ino, container, data, tofcrc, t, io).inode, data)
  {
    var r := PackFragments(ino, container, data, tofcrc, t, io);
    if io.tellOk && io.writeOk {
      assert r.container == container + data && r.table == Insert(t, data, |container|, tofcrc);
      InsertKeepsStore(container, data, t, tofcrc);
      assert r.container[|container|..|container| + |data|] == data;
    } else {
      assert r.container == container && r.table == t;
    }
  }

  /** Appending a tail to the container and its bucket keeps the store
      consistent. */
  lemma InsertKeepsStore(container: seq<byte>, data: seq<byte>, t: Table, crc: nat)
    requires StoreOk(container, t)
    ensures StoreOk(container + data, Insert(t, data, |container|, crc))
  {
    var t' := Insert(t, data, |container|, crc);
    forall h | h in t'
      ensures Tasty(t'[h]) && Backed(container + data, t'[h])
    {
      assert t'[h] == Bucket(t', h);
      InsertKeepsBucket(container, data, t, crc, h);
    }
  }

  lemma InsertKeepsBucket(container: seq<byte>, data: seq<byte>, t: Table, crc: nat, h: nat)
    requires StoreOk(container, t)
    ensures Tasty(Bucket(Insert(t, data, |container|, crc), h))
    ensures Backed(container + data, Bucket(Insert(t, data, |container|, crc), h))
  {
    var before := Bucket(t, h);
    assert Tasty(before) && Backed(container, before);
    BackedGrows(container, data, before);
    if h == Hash(crc) && |data| > TOF_HASHLEN {
      AppendBacked(container, data, before);
    }
  }

  /** The new tail is backed by the bytes just appended. */
  lemma AppendBacked(container: seq<byte>, data: seq<byte>, items: seq<Item>)
    requires Tasty(items) && Backed(container + data, items) && |data| > TOF_HASHLEN
    ensures Tasty(items + [Item(data, |container|, 0)])
    ensures Backed(container + data, items + [Item(data, |container|, 0)])
  {
    assert (container + data)[|container|..|container| + |data|] == data;
  }

  /** Appending to the container keeps every stored tail backed. */
  lemma BackedGrows(container: seq<byte>, data: seq<byte>, items: seq<Item>)
    requires Backed(container, items)
    ensures Backed(container + data, items)
  {
    forall k | 0 <= k < |items|
      ensures (container + data)[items[k].pos..items[k].pos + |items[k].data|] == items[k].data
    {
      assert (container + data)[items[k].pos..items[k].pos + |items[k].data|] ==
             container[items[k].pos..items[k].pos + |items[k].data|];
    }
  }
}
