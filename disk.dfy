/**
 * The filesystem that `decompress`, `setAttrs` and `downloadFile` change, the
 * archive stream that the gzip and tar readers deliver, and the entry walk of
 * `decompress`.
 *
 * The filesystem is a map from path to node. A path's directory is the path up
 * to its last '/' (see `Parent`); a path with no '/' after its first character
 * lies in the root or the working directory, which always exist and whose
 * times are not tracked. A new entry needs its directory to exist (ENOENT
 * otherwise) and to be a directory (ENOTDIR), and it sets that directory's
 * modification time. Creating a directory over a file fails with ENOTDIR,
 * creating a file over a directory with EISDIR, and creating or changing
 * anything at a path the process may not write with EACCES (the policy's
 * `readOnly` set).
 */
module Disk {
  import opened Common

  type byte = b: int | 0 <= b < 256
  type Path = string
  type Time = int

  /** Unix mode bits as `chmod(2)` takes them: permissions plus setuid, setgid and sticky. */
  type Mode = m: int | 0 <= m < 4096

  datatype Node =
    | Dir(mode: Mode, atime: Time, mtime: Time)
    | File(content: seq<byte>, mode: Mode, atime: Time, mtime: Time)

  /** What the environment fixes: unwritable paths, the process umask, and the clock. */
  datatype Policy = Policy(readOnly: set<Path>, umask: Mode, now: Time)

  datatype Errno = ENOENT | ENOTDIR | EISDIR | EEXIST | EACCES

  datatype Error =
    | PathError(op: string, path: Path, errno: Errno)
    | StreamError(msg: string)               // gzip or tar reader failures
    | NetError(msg: string)                  // the HTTP transfer failed

  datatype Outcome = Outcome(nodes: map<Path, Node>, err: Option<Error>)

  /** `os.Create` asks for mode 0666 (octal), less the umask. */
  const CreateMode: Mode := 438

  function Masked(mode: Mode, umask: Mode): (m: Mode)
  {
    ((mode as bv12) & !(umask as bv12)) as int
  }

  /**
   * `os.FileMode(header.Mode)` as the system call receives it. The conversion to
   * `FileMode` keeps the low 32 bits; `chmod` then gets the nine permission bits
   * plus setuid, setgid and sticky read from `FileMode`'s own flag bits 23, 22
   * and 20, not from the Unix bits 04000, 02000 and 01000 of the tar header.
   * So the header's permission bits always arrive (negative modes taken in two's
   * complement), and a header mode below bit 20 arrives as exactly its
   * permission bits.
   */
  function ModeOf(mode: int): (m: Mode)
    ensures m % 512 == mode % 512
    ensures 0 <= mode < 0x10_0000 ==> m == mode % 512
  {
    var fm := mode % 0x1_0000_0000;
    var r := fm % 512;
    var high := (if (fm / 0x80_0000) % 2 == 1 then 2048 else 0)
      + (if (fm / 0x40_0000) % 2 == 1 then 1024 else 0)
      + (if (fm / 0x10_0000) % 2 == 1 then 512 else 0);
    assert (r + high) % 512 == mode % 512 by {
      RemainderOf(r + high, high / 512, r);
      RemainderOf(fm, fm / 512, r);
      var q := mode / 0x1_0000_0000;
      assert mode == (fm / 512 + q * 0x80_0000) * 512 + r;
      RemainderOf(mode, fm / 512 + q * 0x80_0000, r);
    }
    assert 0 <= mode < 0x10_0000 ==> high == 0;
    r + high
  }

  lemma RemainderOf(x: int, a: int, r: int)
    requires x == a * 512 + r && 0 <= r < 512
    ensures x % 512 == r
  {
  }

  /** The tar header's setuid bit (04755 octal) does not survive: the file gets 0755. */
  lemma ModeOfDropsTarSetuid()
    ensures ModeOf(2541) == 493
  {
  }

  // ---------------------------------------------------------------------------
  // Paths
  // ---------------------------------------------------------------------------

  /** The '/'-separated elements of `s`, empty ones included. */
  function Split(s: string): (r: seq<string>)
    ensures |r| >= 1
  {
    if s == [] then [""]
    else
      var rest := Split(s[1..]);
      if s[0] == '/' then [""] + rest else [[s[0]] + rest[0]] + rest[1..]
  }

  /**
   * The element pass of `path.Clean`: empty and "." elements go, ".." removes
   * the element before it; a ".." with nothing to remove is dropped in a rooted
   * path and kept in a relative one.
   */
  function CleanElements(kept: seq<string>, elems: seq<string>, rooted: bool): seq<string>
    decreases |elems|
  {
    if elems == [] then kept
    else
      var e := elems[0];
      if e == "" || e == "." then CleanElements(kept, elems[1..], rooted)
      else if e == ".." then
        if |kept| > 0 && kept[|kept| - 1] != ".." then CleanElements(kept[..|kept| - 1], elems[1..], rooted)
        else if rooted then CleanElements(kept, elems[1..], rooted)
        else CleanElements(kept + [".."], elems[1..], rooted)
      else CleanElements(kept + [e], elems[1..], rooted)
  }

  function JoinElements(es: seq<string>): string
  {
    if es == [] then "" else if |es| == 1 then es[0] else es[0] + "/" + JoinElements(es[1..])
  }

  /** `path.Clean`: the shortest lexical equivalent; "." for an empty result. */
  function Clean(path: string): (c: Path)
    ensures c != ""
  {
    if path == "" then "."
    else
      var rooted := path[0] == '/';
      var body := JoinElements(CleanElements([], Split(path), rooted));
      if rooted then "/" + body else if body == "" then "." else body
  }

  /** `path.Join(dir, name)`: the non-empty parts joined with '/', then cleaned. */
  function Join(dir: Path, name: string): (r: Path)
    ensures r == "" <==> dir == "" && name == ""
    ensures dir != "" && dir[0] == '/' ==> r != "" && r[0] == '/'
    ensures dir == "" && name != "" && name[0] == '/' ==> r != "" && r[0] == '/'
  {
    if dir != "" then Clean(dir + "/" + name)
    else if name != "" then Clean(name)
    else ""
  }

  /** The index of the last '/' in `p`, or -1. */
  function LastSlash(p: string): (i: int)
    ensures -1 <= i < |p|
    ensures 0 <= i ==> p[i] == '/'
    ensures forall k :: i < k < |p| ==> p[k] != '/'
  {
    if p == [] then -1
    else if p[|p| - 1] == '/' then |p| - 1
    else LastSlash(p[..|p| - 1])
  }

  /**
   * The directory that holds `p`, as `os.MkdirAll` computes it: the path before
   * the last '/', when that is not the leading one. None stands for the root or
   * the working directory.
   */
  function Parent(p: Path): (r: Option<Path>)
    ensures r.Some? ==> |r.value| < |p| && r.value == p[..|r.value|] && p[|r.value|] == '/'
  {
    var i := LastSlash(p);
    if 1 <= i then Some(p[..i]) else None
  }

  /** A single path element: no '/' in it. */
  predicate NoSlash(s: string)
  {
    forall i :: 0 <= i < |s| ==> s[i] != '/'
  }

  /** A path built as `dir + "/" + rest`, with no '/' in `rest`, lies directly in `dir`. */
  lemma {:induction false} ParentOfAppended(dir: Path, rest: string)
    requires 1 <= |dir| && NoSlash(rest)
    ensures Parent(dir + "/" + rest) == Some(dir)
    decreases |rest|
  {
    var s := dir + "/" + rest;
    assert s[..|dir|] == dir;
    if rest == [] {
      assert LastSlash(s) == |dir|;
    } else {
      var shorter := rest[..|rest| - 1];
      assert NoSlash(shorter) by {
        forall i | 0 <= i < |shorter| ensures shorter[i] != '/' {
          assert shorter[i] == rest[i];
        }
      }
      assert s[..|s| - 1] == dir + "/" + shorter;
      ParentOfAppended(dir, shorter);
      assert s[|s| - 1] == rest[|rest| - 1] != '/';
      assert LastSlash(s) == LastSlash(dir + "/" + shorter) == |dir|;
    }
  }

  /** The directories above `p` along `Parent`. */
  function Ancestors(p: Path): (r: set<Path>)
    ensures forall a :: a in r ==> |a| < |p|
    ensures Parent(p).Some? ==> Parent(p).value in r
    decreases |p|
  {
    match Parent(p)
    case None => {}
    case Some(q) => {q} + Ancestors(q)
  }

  /** `p` looks the same in `a` and in `b`. */
  predicate SameAt(a: map<Path, Node>, b: map<Path, Node>, p: Path)
  {
    (p in a <==> p in b) && (p in a ==> a[p] == b[p])
  }

  /** Nothing is removed and nothing changes between file and directory. */
  predicate Grows(a: map<Path, Node>, b: map<Path, Node>)
  {
    a.Keys <= b.Keys && forall p :: p in a ==> b[p].Dir? == a[p].Dir?
  }

  /** Why `path` cannot be looked up or created: its directory is missing, or is a file. */
  function ParentProblem(nodes: map<Path, Node>, path: Path): Option<Errno>
  {
    match Parent(path)
    case None => None
    case Some(q) => if q !in nodes then Some(ENOENT) else if nodes[q].Dir? then None else Some(ENOTDIR)
  }

  function WithMtime(n: Node, t: Time): Node
  {
    match n
    case Dir(mode, atime, _) => Dir(mode, atime, t)
    case File(content, mode, atime, _) => File(content, mode, atime, t)
  }

  /** A new entry: the node appears and its directory's modification time becomes now. */
  function AddEntry(p: Policy, nodes: map<Path, Node>, path: Path, node: Node): (r: map<Path, Node>)
    requires ParentProblem(nodes, path).None?
    ensures path in r && r[path] == node
    ensures r.Keys == nodes.Keys + {path}
    ensures forall q :: q != path && Parent(path) != Some(q) ==> SameAt(nodes, r, q)
    ensures Parent(path).Some? ==> var d := Parent(path).value; r[d] == WithMtime(nodes[d], p.now)
    ensures forall q :: q in nodes && q != path ==> r[q].Dir? == nodes[q].Dir?
    ensures forall q :: q in nodes && q != path && nodes[q].File? ==> r[q] == nodes[q]
  {
    var added := nodes[path := node];
    match Parent(path)
    case None => added
    case Some(d) => added[d := WithMtime(nodes[d], p.now)]
  }

  // ---------------------------------------------------------------------------
  // The system calls, as functions of the state
  // ---------------------------------------------------------------------------

  /** `mkdir(2)` with the umask applied. */
  function MkdirResult(p: Policy, nodes: map<Path, Node>, path: Path, mode: Mode): (o: Outcome)
    ensures forall q :: q != path && Parent(path) != Some(q) ==> SameAt(nodes, o.nodes, q)
    ensures Grows(nodes, o.nodes)
    ensures forall q :: q in nodes && nodes[q].File? ==> o.nodes[q] == nodes[q]
    ensures o.err.Some? <==> ParentProblem(nodes, path).Some? || path in nodes || path in p.readOnly
    ensures o.nodes == if o.err.None? then AddEntry(p, nodes, path, Dir(Masked(mode, p.umask), p.now, p.now)) else nodes
  {
    if ParentProblem(nodes, path).Some? then Outcome(nodes, Some(PathError("mkdir", path, ParentProblem(nodes, path).value)))
    else if path in nodes then Outcome(nodes, Some(PathError("mkdir", path, EEXIST)))
    else if path in p.readOnly then Outcome(nodes, Some(PathError("mkdir", path, EACCES)))
    else Outcome(AddEntry(p, nodes, path, Dir(Masked(mode, p.umask), p.now, p.now)), None)
  }

  /**
   * `os.MkdirAll`: nothing to do for an existing directory, ENOTDIR for anything
   * else there; otherwise make the directory that holds `path` first, then
   * `path` itself, every one with the same mode.
   */
  function MkdirAllResult(p: Policy, nodes: map<Path, Node>, path: Path, mode: Mode): (o: Outcome)
    ensures Confined(nodes, o.nodes, path)
    ensures forall q :: q in nodes && nodes[q].File? ==> o.nodes[q] == nodes[q]
    ensures o.err.None? ==> path in o.nodes && o.nodes[path].Dir?
    ensures o.err.None? && path in p.readOnly ==> path in nodes
    ensures path in nodes ==> o.nodes == nodes && (o.err.None? <==> nodes[path].Dir?)
    ensures path !in nodes && ParentProblem(nodes, path).None? ==>
      && (o.err.None? <==> path !in p.readOnly)
      && o.nodes == if o.err.None? then AddEntry(p, nodes, path, Dir(Masked(mode, p.umask), p.now, p.now)) else nodes
    ensures path !in nodes && ParentProblem(nodes, path) == Some(ENOTDIR) ==> o.err.Some?
    decreases |path|
  {
    if path in nodes then
      if nodes[path].Dir? then Outcome(nodes, None)
      else Outcome(nodes, Some(PathError("mkdir", path, ENOTDIR)))
    else
      var up := match Parent(path)
        case None => Outcome(nodes, None)
        case Some(q) => MkdirAllResult(p, nodes, q, mode);
      if up.err.Some? then up
      else
        MkdirResult(p, up.nodes, path, mode)
  }

  /**
   * `os.Create`: truncate an existing file (its mode stays, the directory's
   * times too), or make an empty one.
   */
  function CreateResult(p: Policy, nodes: map<Path, Node>, path: Path): (o: Outcome)
    ensures Confined(nodes, o.nodes, path)
    ensures o.err.Some? <==> ParentProblem(nodes, path).Some? || (path in nodes && nodes[path].Dir?) || path in p.readOnly
    ensures o.err.Some? ==> o.nodes == nodes && o.err.value.PathError?
    ensures o.err.None? ==> path in o.nodes && o.nodes[path].File? && o.nodes[path].content == [] && o.nodes[path].mtime == p.now
    ensures o.err.None? && path !in nodes && Parent(path).Some? ==>
      o.nodes[Parent(path).value] == WithMtime(nodes[Parent(path).value], p.now)
  {
    if ParentProblem(nodes, path).Some? then Outcome(nodes, Some(PathError("open", path, ParentProblem(nodes, path).value)))
    else if path in nodes && nodes[path].Dir? then Outcome(nodes, Some(PathError("open", path, EISDIR)))
    else if path in p.readOnly then Outcome(nodes, Some(PathError("open", path, EACCES)))
    else if path in nodes then Outcome(nodes[path := nodes[path].(content := [], mtime := p.now)], None)
    else Outcome(AddEntry(p, nodes, path, File([], Masked(CreateMode, p.umask), p.now, p.now)), None)
  }

  /** Writing through a handle that `Create` returned: the bytes are appended. */
  function WriteResult(p: Policy, nodes: map<Path, Node>, path: Path, data: seq<byte>): (r: map<Path, Node>)
    requires path in nodes && nodes[path].File?
    ensures OnlyAt(nodes, r, path)
    ensures path in r && r[path].File? && r[path].content == nodes[path].content + data
  {
    nodes[path := nodes[path].(content := nodes[path].content + data, mtime := p.now)]
  }

  /** `os.Chmod`: a missing path is ENOENT, an unwritable one EACCES; only the mode changes. */
  function ChmodResult(p: Policy, nodes: map<Path, Node>, path: Path, mode: Mode): (o: Outcome)
    ensures OnlyAt(nodes, o.nodes, path)
    ensures o.err.Some? <==> path !in nodes || path in p.readOnly
    ensures o.err.Some? ==> o == Outcome(nodes, Some(PathError("chmod", path, if path !in nodes then ENOENT else EACCES)))
    ensures o.err.None? ==>
      && o.nodes[path].Dir? == nodes[path].Dir?
      && o.nodes[path].mode == mode
      && o.nodes[path].atime == nodes[path].atime && o.nodes[path].mtime == nodes[path].mtime
      && (nodes[path].File? ==> o.nodes[path].content == nodes[path].content)
  {
    if path !in nodes then Outcome(nodes, Some(PathError("chmod", path, ENOENT)))
    else if path in p.readOnly then Outcome(nodes, Some(PathError("chmod", path, EACCES)))
    else Outcome(nodes[path := nodes[path].(mode := mode)], None)
  }

  /** `os.Chtimes`: a missing path is ENOENT, an unwritable one EACCES; only the two times change. */
  function ChtimesResult(p: Policy, nodes: map<Path, Node>, path: Path, atime: Time, mtime: Time): (o: Outcome)
    ensures OnlyAt(nodes, o.nodes, path)
    ensures o.err.Some? <==> path !in nodes || path in p.readOnly
    ensures o.err.Some? ==> o == Outcome(nodes, Some(PathError("chtimes", path, if path !in nodes then ENOENT else EACCES)))
    ensures o.err.None? ==>
      && o.nodes[path].Dir? == nodes[path].Dir?
      && o.nodes[path].mode == nodes[path].mode
      && o.nodes[path].atime == atime && o.nodes[path].mtime == mtime
      && (nodes[path].File? ==> o.nodes[path].content == nodes[path].content)
  {
    if path !in nodes then Outcome(nodes, Some(PathError("chtimes", path, ENOENT)))
    else if path in p.readOnly then Outcome(nodes, Some(PathError("chtimes", path, EACCES)))
    else Outcome(nodes[path := nodes[path].(atime := atime, mtime := mtime)], None)
  }

  // ---------------------------------------------------------------------------
  // The archive as the gzip and tar readers deliver it
  // ---------------------------------------------------------------------------

  /** `tar.TypeReg` and `tar.TypeDir`. */
  const TypeReg: char := '0'
  const TypeDir: char := '5'

  datatype Header = Header(name: string, typeflag: char, mode: int, accessTime: Time, modTime: Time)

  /**
   * One header and the bytes `io.Copy` gets from the tar reader for it; when the
   * copy fails, `body` is what was written before the failure.
   */
  datatype Entry = Entry(header: Header, body: seq<byte>, copyError: Option<string>)

  /** What the call to `Next` after the last header returns: `io.EOF` or another error. */
  datatype TarEnd = Eof | ReadError(msg: string)

  /** `gzip.NewReader` either fails or yields a tar stream. */
  datatype Archive = GzipFailed(msg: string) | Gzip(entries: seq<Entry>, end: TarEnd)

  // ---------------------------------------------------------------------------
  // The entry walk
  // ---------------------------------------------------------------------------

  function Target(targetdir: Path, e: Entry): Path
  {
    Join(targetdir, e.header.name)
  }

  /** Directory and regular entries are extracted; every other type is skipped. */
  predicate Extracted(e: Entry)
  {
    e.header.typeflag == TypeDir || e.header.typeflag == TypeReg
  }

  /** The node an extracted entry leaves at its target. */
  function Restored(e: Entry): Node
  {
    var h := e.header;
    if h.typeflag == TypeDir then Dir(ModeOf(h.mode), h.accessTime, h.modTime)
    else File(e.body, ModeOf(h.mode), h.accessTime, h.modTime)
  }

  /** `setAttrs`: chmod, then chtimes, on the target alone; both errors are dropped. */
  function SetAttrsResult(p: Policy, nodes: map<Path, Node>, target: Path, h: Header): (r: map<Path, Node>)
    ensures OnlyAt(nodes, r, target)
    ensures target in nodes && target !in p.readOnly ==>
      r[target] == nodes[target].(mode := ModeOf(h.mode), atime := h.accessTime, mtime := h.modTime)
    ensures target in p.readOnly ==> r == nodes
  {
    var afterChmod := ChmodResult(p, nodes, target, ModeOf(h.mode)).nodes;
    ChtimesResult(p, afterChmod, target, h.accessTime, h.modTime).nodes
  }

  /**
   * What a turn of the loop may do to the state when it handles target `t`:
   * change only `t` and the directories above it, remove nothing, turn no file
   * into a directory or back, and change no file but `t`; with `t`'s directory
   * in place, add no path but `t`.
   */
  ghost predicate Confined(a: map<Path, Node>, b: map<Path, Node>, t: Path)
  {
    && (forall q :: q != t && q !in Ancestors(t) ==> SameAt(a, b, q))
    && Grows(a, b)
    && (forall q :: q != t && q in a && a[q].File? ==> b[q] == a[q])
    && (ParentProblem(a, t).None? ==> b.Keys <= a.Keys + {t})
  }

  /** From `b` to `c` only `t` changes, and it stays what kind it was. */
  ghost predicate OnlyAt(b: map<Path, Node>, c: map<Path, Node>, t: Path)
  {
    (forall q :: q != t ==> SameAt(b, c, q)) && Grows(b, c)
  }

  lemma ConfinedThenOnlyAt(a: map<Path, Node>, b: map<Path, Node>, c: map<Path, Node>, t: Path)
    requires Confined(a, b, t) && OnlyAt(b, c, t)
    ensures Confined(a, c, t)
  {
    forall q | q != t && q !in Ancestors(t) ensures SameAt(a, c, q) {
      assert SameAt(a, b, q) && SameAt(b, c, q);
    }
    forall q | q != t && q in a && a[q].File? ensures c[q] == a[q] {
      assert SameAt(b, c, q);
    }
    forall q | q in c ensures q == t || q in b {
      if q != t {
        assert SameAt(b, c, q);
      }
    }
  }

  /** The `tar.TypeDir` case: `MkdirAll`, then `setAttrs`. */
  function ExtractDir(p: Policy, nodes: map<Path, Node>, t: Path, h: Header): (o: Outcome)
    ensures Confined(nodes, o.nodes, t)
    ensures ParentProblem(nodes, t).None? ==>
      (o.err.Some? <==> (t in nodes && !nodes[t].Dir?) || (t !in nodes && t in p.readOnly))
    ensures ParentProblem(nodes, t) == Some(ENOTDIR) && t !in nodes ==> o.err.Some?
    ensures o.err.None? ==>
      if t in p.readOnly then o.nodes == nodes else t in o.nodes && o.nodes[t] == Dir(ModeOf(h.mode), h.accessTime, h.modTime)
    ensures o.err.None? && t !in nodes && Parent(t).Some? && Parent(t).value in nodes ==>
      o.nodes[Parent(t).value] == WithMtime(nodes[Parent(t).value], p.now)
  {
    var made := MkdirAllResult(p, nodes, t, ModeOf(h.mode));
    if made.err.Some? then made
    else
      var r := SetAttrsResult(p, made.nodes, t, h);
      ConfinedThenOnlyAt(nodes, made.nodes, r, t);
      Outcome(r, None)
  }

  /** The `tar.TypeReg` case: `Create`, copy the body, then `setAttrs`. */
  function ExtractFile(p: Policy, nodes: map<Path, Node>, t: Path, e: Entry): (o: Outcome)
    ensures Confined(nodes, o.nodes, t)
    ensures o.err.Some? <==> ParentProblem(nodes, t).Some? || (t in nodes && nodes[t].Dir?) || t in p.readOnly || e.copyError.Some?
    ensures o.err.None? ==> t in o.nodes && o.nodes[t] == File(e.body, ModeOf(e.header.mode), e.header.accessTime, e.header.modTime)
    ensures o.err.None? && t !in nodes && Parent(t).Some? ==>
      o.nodes[Parent(t).value] == WithMtime(nodes[Parent(t).value], p.now)
    ensures o.err.Some? ==>
      || (o.nodes == nodes && o.err.value.PathError?)
      || (e.copyError.Some? && o.err == Some(StreamError(e.copyError.value)) && t in o.nodes && o.nodes[t].File? && o.nodes[t].content == e.body)
  {
    var created := CreateResult(p, nodes, t);
    if created.err.Some? then created
    else
      var written := WriteResult(p, created.nodes, t, e.body);
      assert written[t].content == e.body by {
        assert created.nodes[t].content == [];
        assert [] + e.body == e.body;
      }
      ConfinedThenOnlyAt(nodes, created.nodes, written, t);
      if e.copyError.Some? then Outcome(written, Some(StreamError(e.copyError.value)))
      else
        var r := SetAttrsResult(p, written, t, e.header);
        ConfinedThenOnlyAt(nodes, written, r, t);
        Outcome(r, None)
  }

  /**
   * One turn of the `decompress` loop, for a header `Next` returned: the entry's
   * target is `path.Join(targetdir, name)`, directories and regular files are
   * extracted, anything else is skipped.
   */
  function Step(p: Policy, nodes: map<Path, Node>, targetdir: Path, e: Entry): (o: Outcome)
    ensures Confined(nodes, o.nodes, Target(targetdir, e))
    ensures !Extracted(e) ==> o == Outcome(nodes, None)
    // When each call fails.
    ensures e.header.typeflag == TypeDir && ParentProblem(nodes, Target(targetdir, e)).None? ==>
      var t := Target(targetdir, e);
      (o.err.Some? <==> (t in nodes && !nodes[t].Dir?) || (t !in nodes && t in p.readOnly))
    ensures (e.header.typeflag == TypeDir && ParentProblem(nodes, Target(targetdir, e)) == Some(ENOTDIR) &&
             Target(targetdir, e) !in nodes) ==> o.err.Some?
    ensures e.header.typeflag == TypeReg ==>
      var t := Target(targetdir, e);
      (o.err.Some? <==> ParentProblem(nodes, t).Some? || (t in nodes && nodes[t].Dir?) || t in p.readOnly || e.copyError.Some?)
    // What success leaves: the entry at its target, and a new entry's directory touched.
    ensures Extracted(e) && o.err.None? ==>
      var t := Target(targetdir, e);
      if t in p.readOnly then o.nodes == nodes else t in o.nodes && o.nodes[t] == Restored(e)
    ensures (Extracted(e) && o.err.None? && Target(targetdir, e) !in nodes && Parent(Target(targetdir, e)).Some? &&
             Parent(Target(targetdir, e)).value in nodes) ==>
      var d := Parent(Target(targetdir, e)).value;
      o.nodes[d] == WithMtime(nodes[d], p.now)
    // What a failed file leaves: nothing, or the bytes copied before the stream broke.
    ensures e.header.typeflag == TypeReg && o.err.Some? ==>
      var t := Target(targetdir, e);
      || (o.nodes == nodes && o.err.value.PathError?)
      || (e.copyError.Some? && o.err == Some(StreamError(e.copyError.value)) && t in o.nodes && o.nodes[t].File? && o.nodes[t].content == e.body)
  {
    if e.header.typeflag == TypeDir then ExtractDir(p, nodes, Target(targetdir, e), e.header)
    else if e.header.typeflag == TypeReg then ExtractFile(p, nodes, Target(targetdir, e), e)
    else Outcome(nodes, None)
  }

  /**
   * The `decompress` loop from a given state over the remaining headers. Nothing
   * is ever removed or turned from file into directory, and only an intact
   * stream (`io.EOF` after the last header) can end without an error.
   */
  function Walk(p: Policy, nodes: map<Path, Node>, targetdir: Path, entries: seq<Entry>, end: TarEnd): (o: Outcome)
    ensures Grows(nodes, o.nodes)
    ensures o.err.None? ==> end.Eof?
    decreases |entries|
  {
    if entries == [] then Outcome(nodes, if end.Eof? then None else Some(StreamError(end.msg)))
    else
      var s := Step(p, nodes, targetdir, entries[0]);
      if s.err.Some? then s else Walk(p, s.nodes, targetdir, entries[1..], end)
  }

  /** `decompress(targetdir, reader)` on what the readers deliver. */
  function DecompressResult(p: Policy, nodes: map<Path, Node>, targetdir: Path, archive: Archive): (o: Outcome)
    ensures Grows(nodes, o.nodes)
    ensures archive.GzipFailed? ==> o == Outcome(nodes, Some(StreamError(archive.msg)))
    ensures o.err.None? ==> archive.Gzip? && archive.end.Eof?
    ensures archive.Gzip? && archive.entries == [] ==> o.nodes == nodes
  {
    match archive
    case GzipFailed(msg) => Outcome(nodes, Some(StreamError(msg)))
    case Gzip(entries, end) => Walk(p, nodes, targetdir, entries, end)
  }

  // ---------------------------------------------------------------------------
  // Properties of the walk
  // ---------------------------------------------------------------------------

  /**
   * Headers are processed in order, and the first failure ends the walk: once a
   * prefix fails, nothing after it (headers or the end of the stream) matters.
   */
  lemma {:induction false} WalkAppend(p: Policy, nodes: map<Path, Node>, targetdir: Path,
                                      a: seq<Entry>, b: seq<Entry>, end: TarEnd)
    ensures Walk(p, nodes, targetdir, a + b, end) ==
      var first := Walk(p, nodes, targetdir, a, Eof);
      if first.err.Some? then first else Walk(p, first.nodes, targetdir, b, end)
    decreases |a|
  {
    if a == [] {
      assert a + b == b;
    } else {
      var s := Step(p, nodes, targetdir, a[0]);
      assert (a + b)[0] == a[0];
      if s.err.None? {
        assert (a + b)[1..] == a[1..] + b;
        WalkAppend(p, s.nodes, targetdir, a[1..], b, end);
      }
    }
  }

  /** A stream of only skipped entries changes nothing and ends as the stream ends. */
  lemma {:induction false} WalkSkipsUnsupported(p: Policy, nodes: map<Path, Node>, targetdir: Path,
                                                entries: seq<Entry>, end: TarEnd)
    requires forall i :: 0 <= i < |entries| ==> !Extracted(entries[i])
    ensures Walk(p, nodes, targetdir, entries, end) == Outcome(nodes, if end.Eof? then None else Some(StreamError(end.msg)))
    decreases |entries|
  {
    if entries != [] {
      WalkSkipsUnsupported(p, nodes, targetdir, entries[1..], end);
    }
  }

  /**
   * The walk writes only at the targets of extracted entries and the directories
   * above them, whether it succeeds or not.
   */
  lemma {:induction false} WalkFrame(p: Policy, nodes: map<Path, Node>, targetdir: Path,
                                     entries: seq<Entry>, end: TarEnd, q: Path)
    requires forall i :: 0 <= i < |entries| && Extracted(entries[i]) ==>
      Target(targetdir, entries[i]) != q && q !in Ancestors(Target(targetdir, entries[i]))
    ensures SameAt(nodes, Walk(p, nodes, targetdir, entries, end).nodes, q)
    decreases |entries|
  {
    if entries != [] {
      var s := Step(p, nodes, targetdir, entries[0]);
      if s.err.None? {
        forall i | 0 <= i < |entries[1..]| && Extracted(entries[1..][i])
          ensures Target(targetdir, entries[1..][i]) != q && q !in Ancestors(Target(targetdir, entries[1..][i]))
        {
          assert entries[1..][i] == entries[i + 1];
        }
        WalkFrame(p, s.nodes, targetdir, entries[1..], end, q);
      }
    }
  }

  /** A file that no extracted entry targets is left as it was. */
  lemma {:induction false} WalkKeepsFiles(p: Policy, nodes: map<Path, Node>, targetdir: Path,
                                          entries: seq<Entry>, end: TarEnd, q: Path)
    requires q in nodes && nodes[q].File?
    requires forall i :: 0 <= i < |entries| && Extracted(entries[i]) ==> Target(targetdir, entries[i]) != q
    ensures var r := Walk(p, nodes, targetdir, entries, end).nodes; q in r && r[q] == nodes[q]
    decreases |entries|
  {
    if entries != [] {
      var s := Step(p, nodes, targetdir, entries[0]);
      if s.err.None? {
        forall i | 0 <= i < |entries[1..]| && Extracted(entries[1..][i])
          ensures Target(targetdir, entries[1..][i]) != q
        {
          assert entries[1..][i] == entries[i + 1];
        }
        WalkKeepsFiles(p, s.nodes, targetdir, entries[1..], end, q);
      }
    }
  }

  /**
   * Extraction round trip: when the walk succeeds, an extracted entry with a
   * writable target that no later extracted entry targets again leaves there
   * exactly the directory or file its header describes, with the entry's
   * bytes, mode and times. A directory keeps the header's times only when no
   * later extracted entry lies below it, since a new entry in a directory sets
   * the directory's modification time.
   */
  lemma {:induction false} WalkRestoresEntries(p: Policy, nodes: map<Path, Node>, targetdir: Path,
                                               entries: seq<Entry>, end: TarEnd, k: int)
    requires Walk(p, nodes, targetdir, entries, end).err.None?
    requires 0 <= k < |entries| && Extracted(entries[k])
    requires Target(targetdir, entries[k]) !in p.readOnly
    requires forall j :: k < j < |entries| && Extracted(entries[j]) ==>
      && Target(targetdir, entries[j]) != Target(targetdir, entries[k])
      && (entries[k].header.typeflag == TypeDir ==> Target(targetdir, entries[k]) !in Ancestors(Target(targetdir, entries[j])))
    ensures var r := Walk(p, nodes, targetdir, entries, end).nodes;
      Target(targetdir, entries[k]) in r && r[Target(targetdir, entries[k])] == Restored(entries[k])
    decreases |entries|
  {
    var s := Step(p, nodes, targetdir, entries[0]);
    var t := Target(targetdir, entries[k]);
    var rest := entries[1..];
    if k == 0 {
      if entries[0].header.typeflag == TypeDir {
        forall i | 0 <= i < |rest| && Extracted(rest[i])
          ensures Target(targetdir, rest[i]) != t && t !in Ancestors(Target(targetdir, rest[i]))
        {
          assert rest[i] == entries[i + 1];
        }
        WalkFrame(p, s.nodes, targetdir, rest, end, t);
      } else {
        forall i | 0 <= i < |rest| && Extracted(rest[i])
          ensures Target(targetdir, rest[i]) != t
        {
          assert rest[i] == entries[i + 1];
        }
        WalkKeepsFiles(p, s.nodes, targetdir, rest, end, t);
      }
    } else {
      forall j | k - 1 < j < |rest| && Extracted(rest[j])
        ensures && Target(targetdir, rest[j]) != Target(targetdir, rest[k - 1])
                && (rest[k - 1].header.typeflag == TypeDir ==> Target(targetdir, rest[k - 1]) !in Ancestors(Target(targetdir, rest[j])))
      {
        assert rest[j] == entries[j + 1];
      }
      WalkRestoresEntries(p, s.nodes, targetdir, rest, end, k - 1);
    }
  }

  /**
   * Where the `i`th entry of `entries` would go, a directory is ready to hold
   * it: the root or working directory, an existing directory, or the target of
   * an earlier directory entry.
   */
  predicate HasPlace(nodes: map<Path, Node>, targetdir: Path, entries: seq<Entry>, i: int)
    requires 0 <= i < |entries|
  {
    var up := Parent(Target(targetdir, entries[i]));
    || up.None?
    || (up.value in nodes && nodes[up.value].Dir?)
    || exists j :: 0 <= j < i && entries[j].header.typeflag == TypeDir && Target(targetdir, entries[j]) == up.value
  }

  /** Entry `i` can be extracted into a fresh place. */
  predicate FreshPlace(p: Policy, nodes: map<Path, Node>, targetdir: Path, entries: seq<Entry>, i: int)
    requires 0 <= i < |entries|
  {
    var t := Target(targetdir, entries[i]);
    t !in nodes && t !in p.readOnly && entries[i].copyError.None? && HasPlace(nodes, targetdir, entries, i)
  }

  /** After a successful first turn, every later entry still has a fresh place. */
  lemma FreshPlacesRemain(p: Policy, nodes: map<Path, Node>, targetdir: Path, entries: seq<Entry>, s: Outcome)
    requires |entries| > 0 && s == Step(p, nodes, targetdir, entries[0]) && s.err.None?
    requires Extracted(entries[0]) ==> ParentProblem(nodes, Target(targetdir, entries[0])).None?
    requires forall i :: 0 <= i < |entries| && Extracted(entries[i]) ==> FreshPlace(p, nodes, targetdir, entries, i)
    requires forall i :: 0 < i < |entries| && Extracted(entries[0]) && Extracted(entries[i]) ==>
      Target(targetdir, entries[0]) != Target(targetdir, entries[i])
    ensures forall i :: 0 <= i < |entries[1..]| && Extracted(entries[1..][i]) ==> FreshPlace(p, s.nodes, targetdir, entries[1..], i)
  {
    var e0 := entries[0];
    var t0 := Target(targetdir, e0);
    var rest := entries[1..];
    forall i | 0 <= i < |rest| && Extracted(rest[i])
      ensures FreshPlace(p, s.nodes, targetdir, rest, i)
    {
      assert rest[i] == entries[i + 1];
      var t := Target(targetdir, rest[i]);
      assert FreshPlace(p, nodes, targetdir, entries, i + 1);
      assert t !in s.nodes by {
        if Extracted(e0) {
          assert t != t0;
        }
      }
      var up := Parent(t);
      if up.Some? && !(up.value in nodes && nodes[up.value].Dir?) {
        var j :| 0 <= j < i + 1 && entries[j].header.typeflag == TypeDir && Target(targetdir, entries[j]) == up.value;
        if j == 0 {
          assert s.nodes[t0] == Restored(e0);
        } else {
          assert rest[j - 1] == entries[j];
        }
      }
    }
  }

  /**
   * Extracting into fresh, writable, distinct paths from an intact stream
   * succeeds when each entry's directory exists or comes earlier in the archive.
   */
  lemma {:induction false} WalkIntoFreshPathsSucceeds(p: Policy, nodes: map<Path, Node>, targetdir: Path, entries: seq<Entry>)
    requires forall i :: 0 <= i < |entries| && Extracted(entries[i]) ==> FreshPlace(p, nodes, targetdir, entries, i)
    requires forall i, j :: 0 <= i < j < |entries| && Extracted(entries[i]) && Extracted(entries[j]) ==>
      Target(targetdir, entries[i]) != Target(targetdir, entries[j])
    ensures Walk(p, nodes, targetdir, entries, Eof).err.None?
    decreases |entries|
  {
    if entries != [] {
      var s := Step(p, nodes, targetdir, entries[0]);
      var rest := entries[1..];
      if Extracted(entries[0]) {
        assert FreshPlace(p, nodes, targetdir, entries, 0);
        assert ParentProblem(nodes, Target(targetdir, entries[0])).None?;
      }
      FreshPlacesRemain(p, nodes, targetdir, entries, s);
      forall i, j | 0 <= i < j < |rest| && Extracted(rest[i]) && Extracted(rest[j])
        ensures Target(targetdir, rest[i]) != Target(targetdir, rest[j])
      {
        assert rest[i] == entries[i + 1] && rest[j] == entries[j + 1];
      }
      WalkIntoFreshPathsSucceeds(p, s.nodes, targetdir, rest);
    }
  }

  /**
   * An archive that starts with a regular file whose directory does not exist
   * (a flat archive extracted into a destination nobody created) fails with
   * ENOENT and changes nothing: `decompress` does not create the directories
   * above a file.
   */
  lemma WalkNeedsDirectoryForFile(p: Policy, nodes: map<Path, Node>, targetdir: Path, entries: seq<Entry>, end: TarEnd)
    requires |entries| > 0 && entries[0].header.typeflag == TypeReg
    requires Parent(Target(targetdir, entries[0])).Some? && Parent(Target(targetdir, entries[0])).value !in nodes
    ensures Walk(p, nodes, targetdir, entries, end) == Outcome(nodes, Some(PathError("open", Target(targetdir, entries[0]), ENOENT)))
  {
  }

  // ---------------------------------------------------------------------------
  // Well-formed trees
  // ---------------------------------------------------------------------------

  /** Every node's directory is there and is a directory, as on a real disk. */
  ghost predicate Tree(nodes: map<Path, Node>)
  {
    forall q :: q in nodes && Parent(q).Some? ==> Parent(q).value in nodes && nodes[Parent(q).value].Dir?
  }

  /** `path` and every directory above it. */
  function Chain(path: Path): set<Path>
  {
    {path} + Ancestors(path)
  }

  /**
   * What stops `os.MkdirAll(path)`: a file somewhere on the chain, or a missing
   * directory of it that the process may not create.
   */
  ghost predicate Blocked(p: Policy, nodes: map<Path, Node>, path: Path)
  {
    exists a :: a in Chain(path) && ((a in nodes && nodes[a].File?) || (a !in nodes && a in p.readOnly))
  }

  /** In a tree, everything above a present path is a present directory. */
  lemma {:induction false} TreeAncestorsAreDirs(nodes: map<Path, Node>, path: Path)
    requires Tree(nodes) && path in nodes
    ensures forall a :: a in Ancestors(path) ==> a in nodes && nodes[a].Dir?
    decreases |path|
  {
    match Parent(path)
    case None =>
    case Some(q) => TreeAncestorsAreDirs(nodes, q);
  }

  /**
   * On a tree, `os.MkdirAll` fails exactly when the chain is blocked: a file
   * anywhere above or at the path is ENOTDIR, however many missing directories
   * lie between, and so is an unwritable directory it would have to make.
   */
  lemma {:induction false} MkdirAllFailsExactly(p: Policy, nodes: map<Path, Node>, path: Path, mode: Mode)
    requires Tree(nodes)
    ensures MkdirAllResult(p, nodes, path, mode).err.Some? <==> Blocked(p, nodes, path)
    decreases |path|
  {
    assert path in Chain(path);
    if path in nodes {
      TreeAncestorsAreDirs(nodes, path);
    } else {
      match Parent(path)
      case None =>
        assert Chain(path) == {path};
      case Some(q) =>
        MkdirAllFailsExactly(p, nodes, q, mode);
        assert Chain(path) == {path} + Chain(q);
        if Blocked(p, nodes, q) {
          var a :| a in Chain(q) && ((a in nodes && nodes[a].File?) || (a !in nodes && a in p.readOnly));
          assert a in Chain(path);
        }
        var up := MkdirAllResult(p, nodes, q, mode);
        if up.err.None? {
          assert q !in Ancestors(q);
          assert SameAt(nodes, up.nodes, path);
        }
    }
  }

  /** On a tree, a successful `os.MkdirAll` leaves the path and every directory above it a directory. */
  lemma {:induction false} MkdirAllMakesChain(p: Policy, nodes: map<Path, Node>, path: Path, mode: Mode)
    requires Tree(nodes)
    ensures var o := MkdirAllResult(p, nodes, path, mode);
      o.err.None? ==> forall a :: a in Chain(path) ==> a in o.nodes && o.nodes[a].Dir?
    decreases |path|
  {
    if path in nodes {
      TreeAncestorsAreDirs(nodes, path);
    } else {
      match Parent(path)
      case None =>
      case Some(q) =>
        MkdirAllMakesChain(p, nodes, q, mode);
        assert Chain(path) == {path} + Chain(q);
    }
  }

  /** A new entry whose directory is in place keeps the map a tree. */
  lemma AddEntryKeepsTree(p: Policy, nodes: map<Path, Node>, path: Path, node: Node)
    requires Tree(nodes) && path !in nodes && ParentProblem(nodes, path).None?
    ensures Tree(AddEntry(p, nodes, path, node))
  {
  }

  /** A change confined to one present path that keeps its kind keeps the map a tree. */
  lemma OnlyAtKeepsTree(b: map<Path, Node>, c: map<Path, Node>, t: Path)
    requires Tree(b) && OnlyAt(b, c, t) && t in b
    ensures Tree(c)
  {
    forall q | q in c && Parent(q).Some? ensures Parent(q).value in c && c[Parent(q).value].Dir? {
      if q != t {
        assert SameAt(b, c, q);
      }
    }
  }

  lemma {:induction false} MkdirAllKeepsTree(p: Policy, nodes: map<Path, Node>, path: Path, mode: Mode)
    requires Tree(nodes)
    ensures Tree(MkdirAllResult(p, nodes, path, mode).nodes)
    decreases |path|
  {
    if path !in nodes {
      var up := match Parent(path)
        case None => Outcome(nodes, None)
        case Some(q) => MkdirAllResult(p, nodes, q, mode);
      if Parent(path).Some? {
        MkdirAllKeepsTree(p, nodes, Parent(path).value, mode);
      }
      if up.err.None? {
        var q := Parent(path);
        if q.Some? {
          assert q.value !in Ancestors(q.value);
          assert SameAt(nodes, up.nodes, path);
        }
        if MkdirResult(p, up.nodes, path, mode).err.None? {
          AddEntryKeepsTree(p, up.nodes, path, Dir(Masked(mode, p.umask), p.now, p.now));
        }
      }
    }
  }

  lemma CreateKeepsTree(p: Policy, nodes: map<Path, Node>, path: Path)
    requires Tree(nodes)
    ensures Tree(CreateResult(p, nodes, path).nodes)
  {
  }

  /** One turn of the loop keeps the disk a tree. */
  lemma StepKeepsTree(p: Policy, nodes: map<Path, Node>, targetdir: Path, e: Entry)
    requires Tree(nodes)
    ensures Tree(Step(p, nodes, targetdir, e).nodes)
  {
    var t := Target(targetdir, e);
    if e.header.typeflag == TypeDir {
      var made := MkdirAllResult(p, nodes, t, ModeOf(e.header.mode));
      MkdirAllKeepsTree(p, nodes, t, ModeOf(e.header.mode));
      if made.err.None? {
        OnlyAtKeepsTree(made.nodes, SetAttrsResult(p, made.nodes, t, e.header), t);
      }
    } else if e.header.typeflag == TypeReg {
      var created := CreateResult(p, nodes, t);
      CreateKeepsTree(p, nodes, t);
      if created.err.None? {
        var written := WriteResult(p, created.nodes, t, e.body);
        OnlyAtKeepsTree(created.nodes, written, t);
        if e.copyError.None? {
          OnlyAtKeepsTree(written, SetAttrsResult(p, written, t, e.header), t);
        }
      }
    }
  }

  /** The whole walk keeps the disk a tree, so the lemmas above apply at every turn. */
  lemma {:induction false} WalkKeepsTree(p: Policy, nodes: map<Path, Node>, targetdir: Path, entries: seq<Entry>, end: TarEnd)
    requires Tree(nodes)
    ensures Tree(Walk(p, nodes, targetdir, entries, end).nodes)
    decreases |entries|
  {
    if entries != [] {
      StepKeepsTree(p, nodes, targetdir, entries[0]);
      WalkKeepsTree(p, Step(p, nodes, targetdir, entries[0]).nodes, targetdir, entries[1..], end);
    }
  }

  /**
   * A directory entry on a tree, whether or not its directory exists: the
   * turn fails exactly when the target's chain is blocked, and on success the
   * target and everything above it are directories.
   */
  lemma StepDirFailsExactly(p: Policy, nodes: map<Path, Node>, targetdir: Path, e: Entry)
    requires Tree(nodes) && e.header.typeflag == TypeDir
    ensures var o := Step(p, nodes, targetdir, e);
      && (o.err.Some? <==> Blocked(p, nodes, Target(targetdir, e)))
      && (o.err.None? ==> forall a :: a in Chain(Target(targetdir, e)) ==> a in o.nodes && o.nodes[a].Dir?)
  {
    var t := Target(targetdir, e);
    MkdirAllFailsExactly(p, nodes, t, ModeOf(e.header.mode));
    MkdirAllMakesChain(p, nodes, t, ModeOf(e.header.mode));
  }
}
