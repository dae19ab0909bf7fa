/** The extraction path of fsck: the `--extract=X` argument normalised into
    a PATH_MAX-byte buffer, and the append/restore of "/name" done for every
    directory entry as the directory tree is walked (erofsfsck_dirent_iter).

    The buffer is modelled as its bytes plus `extract_pos`, the end of the
    prefix that children are appended to. A write past the end of the
    allocation shows up as a buffer longer than PATH_MAX. */
module FsckPath {
  import Errno
  import opened Outcomes

  /** Size of the heap buffer holding the extraction path. */
  const PATH_MAX: nat := 4096
  /** EROFS_NAME_LEN: the longest directory-entry name. */
  const NAME_LEN: nat := 255

  const NUL: char := '\0'

  datatype PathBuf = PathBuf(buf: seq<char>, pos: nat)

  /** The buffer is its full allocation and `extract_pos` lies inside it. */
  predicate Valid(p: PathBuf)
  {
    |p.buf| == PATH_MAX && p.pos < PATH_MAX
  }

  /** The prefix children are appended to. */
  function Prefix(p: PathBuf): seq<char>
    requires p.pos <= |p.buf|
  {
    p.buf[..p.pos]
  }

  /** The C string the buffer holds: everything before the first NUL. */
  function CStr(s: seq<char>): (r: seq<char>)
    ensures r <= s && NUL !in r
    ensures |r| < |s| ==> s[|r|] == NUL
  {
    if |s| == 0 || s[0] == NUL then [] else [s[0]] + CStr(s[1..])
  }

  /** A NUL right after a NUL-free prefix ends the C string there. */
  lemma {:induction false} CStrAt(s: seq<char>, n: nat)
    requires n < |s| && s[n] == NUL && NUL !in s[..n]
    ensures CStr(s) == s[..n]
    decreases n
  {
    if n > 0 {
      assert s[0] in s[..n];
      assert s[1..][..n - 1] == s[..n][1..];
      CStrAt(s[1..], n - 1);
    }
  }

  // ---------------------------------------------------------------------
  // The `--extract=X` normaliser.

  /** The length left once trailing slashes are dropped, keeping at least
      one character. */
  function TrimLen(arg: seq<char>, len: nat): (r: nat)
    requires 1 <= len <= |arg|
    ensures 1 <= r <= len
    ensures forall i :: r <= i < len ==> arg[i] == '/'
    ensures r == 1 || arg[r - 1] != '/'
    decreases len
  {
    if len > 1 && arg[len - 1] == '/' then TrimLen(arg, len - 1) else len
  }

  /** The buffer after `strncpy` of the trimmed argument and its terminator
      into a PATH_MAX-byte allocation (the bytes beyond are unspecified and
      modelled as NUL), with `extract_pos` 0 for the root "/" and the
      trimmed length otherwise. There is no length check: an argument whose
      trimmed length reaches PATH_MAX is written past the allocation. */
  function ParseExtractAsWritten(arg: seq<char>): (r: Result<PathBuf>)
    ensures |arg| == 0 <==> r == Err(-Errno.EINVAL)
  {
    if |arg| == 0 then Err(-Errno.EINVAL)
    else
      var len := TrimLen(arg, |arg|);
      var pad := if len + 1 < PATH_MAX then PATH_MAX - (len + 1) else 0;
      var buf := arg[..len] + [NUL] + seq(pad, _ => NUL);
      Ok(PathBuf(buf, if len == 1 && arg[0] == '/' then 0 else len))
  }

  /** The normaliser with the missing bound: a trimmed path that leaves no
      room for its terminator is refused with -ENAMETOOLONG. */
  function ParseExtract(arg: seq<char>): (r: Result<PathBuf>)
    ensures r.Ok? ==> Valid(r.value)
  {
    if |arg| > 0 && TrimLen(arg, |arg|) >= PATH_MAX then Err(-Errno.ENAMETOOLONG)
    else ParseExtractAsWritten(arg)
  }

  /** What the normaliser stores: a nonempty prefix of the argument that
      drops only trailing slashes and ends in a slash only when it is the
      root itself; `extract_pos` is its length, or 0 for the root. */
  lemma ParseExtractMeaning(arg: seq<char>)
    requires ParseExtract(arg).Ok?
    ensures var p := ParseExtract(arg).value;
      var len := TrimLen(arg, |arg|);
      var kept := p.buf[..len];
      && kept == arg[..len] && p.buf[len] == NUL
      && (forall i :: len <= i < |arg| ==> arg[i] == '/')
      && (kept[len - 1] == '/' ==> kept == "/")
      && (p.pos == 0 <==> kept == "/")
      && (p.pos != 0 ==> p.pos == len)
  {
  }

  /** Normalising an already normalised argument changes nothing. */
  lemma ParseExtractIdempotent(arg: seq<char>)
    requires ParseExtract(arg).Ok?
    ensures var len := TrimLen(arg, |arg|);
      ParseExtract(arg[..len]) == ParseExtract(arg)
  {
    var len := TrimLen(arg, |arg|);
    assert arg[..len][..len] == arg[..len];
  }

  // ---------------------------------------------------------------------
  // Appending "/name" for a directory entry and restoring afterwards.

  /** The entries `.` and `..`, which the walk skips. */
  predicate DotOrDotdot(name: seq<char>)
  {
    name == "." || name == ".."
  }

  /** The append as the source does it: a '/' at `extract_pos`, the name
      after it, a terminator, and `extract_pos` moved to the end of the
      name. Nothing checks that this fits in the buffer. */
  function EnterAsWritten(p: PathBuf, name: seq<char>): (r: PathBuf)
    requires Valid(p)
    ensures r.pos == p.pos + 1 + |name|
    ensures |r.buf| == if r.pos < PATH_MAX then PATH_MAX else r.pos + 1
    ensures r.buf[..r.pos] == Prefix(p) + ['/'] + name && r.buf[r.pos] == NUL
  {
    var end := p.pos + 1 + |name|;
    var tail := if end + 1 <= |p.buf| then p.buf[end + 1..] else [];
    var buf := Prefix(p) + ['/'] + name + [NUL] + tail;
    assert buf[..end] == Prefix(p) + ['/'] + name;
    PathBuf(buf, end)
  }

  /** The append with the missing bound: a name that leaves no room for the
      terminator is refused with -ENAMETOOLONG. */
  function Enter(p: PathBuf, name: seq<char>): (r: Result<PathBuf>)
    requires Valid(p)
    ensures r.Ok? ==> Valid(r.value) && r.value == EnterAsWritten(p, name)
    ensures r.Err? <==> !Valid(EnterAsWritten(p, name))
    ensures r.Err? ==> r.code == -Errno.ENAMETOOLONG
  {
    if p.pos + 1 + |name| >= PATH_MAX then Err(-Errno.ENAMETOOLONG)
    else Ok(EnterAsWritten(p, name))
  }

  /** The restore: the terminator goes back at the saved position and
      `extract_pos` returns to it. */
  function Leave(q: PathBuf, prevPos: nat): (r: PathBuf)
    requires prevPos < |q.buf|
    ensures |r.buf| == |q.buf| && r.pos == prevPos && r.buf[prevPos] == NUL
    ensures r.buf[..prevPos] == q.buf[..prevPos]
  {
    PathBuf(q.buf[prevPos := NUL], prevPos)
  }

  /** Append and restore round-trip: the callback sees the parent prefix
      followed by "/name", and however the callback used the buffer beyond
      that prefix, afterwards the prefix and `extract_pos` are the parent's
      and the C string is exactly the prefix again. */
  lemma EnterLeaveRoundTrip(p: PathBuf, name: seq<char>, q: PathBuf)
    requires Valid(p) && Enter(p, name).Ok?
    requires Valid(q) && Prefix(q) == Prefix(Enter(p, name).value)
    requires NUL !in Prefix(p)
    ensures Prefix(Enter(p, name).value) == Prefix(p) + "/" + name
    ensures var r := Leave(q, p.pos);
      Valid(r) && r.pos == p.pos && Prefix(r) == Prefix(p) && CStr(r.buf) == Prefix(p)
  {
    var c := Enter(p, name).value;
    assert q.buf[..p.pos] == Prefix(q)[..p.pos];
    assert Prefix(c)[..p.pos] == Prefix(p);
    CStrAt(Leave(q, p.pos).buf, p.pos);
  }

  /** The root "/" is stored with `extract_pos` 0, so its children become
      "/name" and not "//name"; but the restore after the first child puts
      the terminator over the root's own '/', leaving the empty C string. */
  lemma RootChildThenRestore(name: seq<char>)
    requires ParseExtract("/").Ok?
    requires 1 <= |name| <= NAME_LEN
    ensures var p := ParseExtract("/").value;
      && CStr(p.buf) == "/"
      && Enter(p, name).Ok?
      && Prefix(Enter(p, name).value) == "/" + name
      && CStr(Leave(Enter(p, name).value, p.pos).buf) == ""
  {
    var p := ParseExtract("/").value;
    assert p.buf[1] == NUL;
    assert p.buf[..1] == "/";
    CStrAt(p.buf, 1);
  }

  // ---------------------------------------------------------------------
  // The directory walk: every entry but `.` and `..` is appended, checked
  // (with its own children, for a directory) and restored.

  datatype Entry = Entry(name: seq<char>, children: seq<Entry>)

  /** Walks a directory's entries in order and returns the final buffer and
      the prefix in effect at each inode check, in visiting order. An entry
      whose path does not fit is refused and not visited. */
  function VisitAll(p: PathBuf, es: seq<Entry>): (r: (PathBuf, seq<seq<char>>))
    requires Valid(p)
    ensures Valid(r.0) && r.0.pos == p.pos && Prefix(r.0) == Prefix(p)
    ensures forall s :: s in r.1 ==> |s| < PATH_MAX && Prefix(p) + "/" <= s
    decreases es
  {
    if |es| == 0 then (p, [])
    else
      var a := VisitOne(p, es[0]);
      var b := VisitAll(a.0, es[1..]);
      (b.0, a.1 + b.1)
  }

  function VisitOne(p: PathBuf, e: Entry): (r: (PathBuf, seq<seq<char>>))
    requires Valid(p)
    ensures Valid(r.0) && r.0.pos == p.pos && Prefix(r.0) == Prefix(p)
    ensures forall s :: s in r.1 ==> |s| < PATH_MAX && Prefix(p) + "/" <= s
    ensures !DotOrDotdot(e.name) && Enter(p, e.name).Ok? ==>
              |r.1| > 0 && r.1[0] == Prefix(p) + "/" + e.name
    ensures DotOrDotdot(e.name) || Enter(p, e.name).Err? ==> r.1 == []
    decreases e
  {
    if DotOrDotdot(e.name) then (p, [])
    else match Enter(p, e.name)
      case Err(_) => (p, [])
      case Ok(c) =>
        var sub := VisitAll(c, e.children);
        assert Prefix(c)[..p.pos] == Prefix(p);
        assert sub.0.buf[..p.pos] == Prefix(sub.0)[..p.pos];
        forall s | s in sub.1
          ensures Prefix(p) + "/" <= s
        {
          assert Prefix(c) + "/" <= s;
          assert (Prefix(p) + "/")[..] == Prefix(c)[..p.pos + 1];
        }
        (Leave(sub.0, p.pos), [Prefix(c)] + sub.1)
  }

  // ---------------------------------------------------------------------
  // The missing bound, exhibited.

  /** The state after entering k nested directories named with 249 'd's:
      each level adds 250 bytes to `extract_pos`, and sixteen levels from
      the root reach 4000, all inside the buffer. */
  function NestPositions(p: PathBuf, k: nat): (r: PathBuf)
    requires Valid(p) && p.pos + 250 * k < PATH_MAX
    ensures Valid(r) && r.pos == p.pos + 250 * k
    decreases k
  {
    if k == 0 then p else NestPositions(EnterAsWritten(p, seq(249, _ => 'd')), k - 1)
  }

  /** From there, one more entry with a legal 255-character name makes the
      as-written append write 161 bytes past the end of the buffer, while
      the bounded append refuses it. */
  lemma EnterOverflowsBuffer()
    ensures var p := NestPositions(PathBuf(seq(PATH_MAX, _ => NUL), 0), 16);
      var name := seq(NAME_LEN, _ => 'x');
      && |EnterAsWritten(p, name).buf| == PATH_MAX + 161
      && !Valid(EnterAsWritten(p, name))
      && Enter(p, name) == Err(-Errno.ENAMETOOLONG)
  {
  }

  /** A 5000-character argument is copied whole, with its terminator, into
      the PATH_MAX-byte buffer by the as-written normaliser; the bounded one
      refuses it. */
  lemma ParseExtractOverflowsBuffer()
    ensures ParseExtractAsWritten(seq(5000, _ => 'a')).Ok?
    ensures |ParseExtractAsWritten(seq(5000, _ => 'a')).value.buf| == 5001
    ensures ParseExtract(seq(5000, _ => 'a')) == Err(-Errno.ENAMETOOLONG)
  {
    var arg := seq(5000, _ => 'a');
    assert arg[4999] != '/';
  }
}
