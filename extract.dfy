/**
 * The filesystem as a mutable object, and the three functions that change it:
 * `decompress` (with `setAttrs`), `downloadFile`, and `downloadAndExtract`,
 * which runs the other two in sequence and ignores both of their errors.
 */
module Extract {
  import opened Common
  import opened Disk

  /** What `http.Get` and the copy of its body deliver for a URL. */
  datatype Transfer = Refused(msg: string) | Response(body: seq<byte>, cut: Option<string>)

  /** The bytes a transfer delivers before it ends or breaks off. */
  function Received(t: Transfer): seq<byte>
  {
    match t
    case Refused(_) => []
    case Response(body, _) => body
  }

  /**
   * `downloadFile(url, filepath)`: create the file, then stream the body into
   * it. Only the file and the directory holding it change; once the file is
   * created it keeps exactly the bytes that arrived, even when the transfer
   * fails; the call succeeds only when the file could be created and the whole
   * body arrived.
   */
  function DownloadResult(p: Policy, nodes: map<Path, Node>, url: string, filepath: Path,
                          net: string -> Transfer): (o: Outcome)
    ensures forall q :: q != filepath && Parent(filepath) != Some(q) ==> SameAt(nodes, o.nodes, q)
    ensures Grows(nodes, o.nodes)
    ensures o.err.Some? <==>
      || ParentProblem(nodes, filepath).Some? || (filepath in nodes && nodes[filepath].Dir?) || filepath in p.readOnly
      || net(url).Refused? || net(url).cut.Some?
    ensures o.err.Some? && o.err.value.PathError? ==> o.nodes == nodes
    ensures CreateResult(p, nodes, filepath).err.None? ==>
      filepath in o.nodes && o.nodes[filepath].File? && o.nodes[filepath].content == Received(net(url))
  {
    var created := CreateResult(p, nodes, filepath);
    if created.err.Some? then created
    else match net(url)
      case Refused(msg) => Outcome(created.nodes, Some(NetError(msg)))
      case Response(body, cut) =>
        var written := WriteResult(p, created.nodes, filepath, body);
        assert written[filepath].content == body by {
          assert created.nodes[filepath].content == [];
          assert [] + body == body;
        }
        Outcome(written, if cut.Some? then Some(NetError(cut.value)) else None)
  }

  /**
   * What `decompress` reads after `os.Open(downloadPath)`: the file's bytes through
   * the readers, or, when the open failed (a nil file) or the path is a directory, a
   * read error that makes `gzip.NewReader` fail.
   */
  function OpenArchive(nodes: map<Path, Node>, path: Path, decode: seq<byte> -> Archive): (a: Archive)
    ensures !(path in nodes && nodes[path].File?) ==> a.GzipFailed?
    ensures path in nodes && nodes[path].File? ==> a == decode(nodes[path].content)
  {
    if path !in nodes then GzipFailed("invalid argument")
    else match nodes[path]
      case Dir(_, _, _) => GzipFailed("is a directory")
      case File(content, _, _, _) => decode(content)
  }

  /**
   * `downloadAndExtract`: download, then always open and decompress; both errors
   * are discarded. Nothing is cleaned up: no path disappears, and a download
   * file that could be created stays behind as a file.
   */
  function DownloadAndExtractResult(p: Policy, nodes: map<Path, Node>, url: string, downloadPath: Path,
                                   finalPath: Path, net: string -> Transfer,
                                   decode: seq<byte> -> Archive): (r: map<Path, Node>)
    ensures Grows(nodes, r)
    ensures CreateResult(p, nodes, downloadPath).err.None? ==> downloadPath in r && r[downloadPath].File?
  {
    var downloaded := DownloadResult(p, nodes, url, downloadPath, net).nodes;
    DecompressResult(p, downloaded, finalPath, OpenArchive(downloaded, downloadPath, decode)).nodes
  }

  /**
   * A failed download does not stop the extraction: when the download file cannot
   * be created, whatever an earlier run left at that path is extracted instead.
   */
  lemma StaleDownloadIsExtracted(p: Policy, nodes: map<Path, Node>, url: string, downloadPath: Path,
                                 finalPath: Path, net: string -> Transfer, decode: seq<byte> -> Archive)
    requires downloadPath in p.readOnly && downloadPath in nodes && nodes[downloadPath].File?
    ensures DownloadResult(p, nodes, url, downloadPath, net).err.Some?
    ensures DownloadAndExtractResult(p, nodes, url, downloadPath, finalPath, net, decode) ==
            DecompressResult(p, nodes, finalPath, decode(nodes[downloadPath].content)).nodes
  {
  }

  /** A refused connection leaves an empty download file, and that empty file is decompressed. */
  lemma RefusedDownloadIsExtracted(p: Policy, nodes: map<Path, Node>, url: string, downloadPath: Path,
                                   finalPath: Path, net: string -> Transfer, decode: seq<byte> -> Archive)
    requires ParentProblem(nodes, downloadPath).None?
    requires downloadPath !in p.readOnly && (downloadPath in nodes ==> nodes[downloadPath].File?)
    requires net(url).Refused?
    ensures var d := DownloadResult(p, nodes, url, downloadPath, net);
      d.err == Some(NetError(net(url).msg)) && downloadPath in d.nodes && d.nodes[downloadPath].content == []
    ensures var d := DownloadResult(p, nodes, url, downloadPath, net).nodes;
      DownloadAndExtractResult(p, nodes, url, downloadPath, finalPath, net, decode) ==
      DecompressResult(p, d, finalPath, decode([])).nodes
  {
  }

  /**
   * The operating system's view of the files this process touches. Each system
   * call is a method that applies the matching function of `Disk` to `nodes`,
   * so the program's own methods below can be proved equal to the functions that
   * describe them.
   */
  class FileSystem {
    var nodes: map<Path, Node>
    const policy: Policy

    constructor (policy: Policy, nodes: map<Path, Node>)
      ensures this.policy == policy && this.nodes == nodes
    {
      this.policy := policy;
      this.nodes := nodes;
    }

    method MkdirAll(path: Path, mode: Mode) returns (err: Option<Error>)
      modifies this
      ensures Outcome(nodes, err) == MkdirAllResult(policy, old(nodes), path, mode)
    {
      var o := MkdirAllResult(policy, nodes, path, mode);
      nodes, err := o.nodes, o.err;
    }

    method Create(path: Path) returns (err: Option<Error>)
      modifies this
      ensures Outcome(nodes, err) == CreateResult(policy, old(nodes), path)
      ensures err.None? ==> path in nodes && nodes[path].File?
    {
      var o := CreateResult(policy, nodes, path);
      nodes, err := o.nodes, o.err;
    }

    /** A write through the handle `Create` returned for `path`. */
    method Write(path: Path, data: seq<byte>)
      requires path in nodes && nodes[path].File?
      modifies this
      ensures nodes == WriteResult(policy, old(nodes), path, data)
    {
      nodes := WriteResult(policy, nodes, path, data);
    }

    method Chmod(path: Path, mode: Mode) returns (err: Option<Error>)
      modifies this
      ensures Outcome(nodes, err) == ChmodResult(policy, old(nodes), path, mode)
    {
      var o := ChmodResult(policy, nodes, path, mode);
      nodes, err := o.nodes, o.err;
    }

    method Chtimes(path: Path, atime: Time, mtime: Time) returns (err: Option<Error>)
      modifies this
      ensures Outcome(nodes, err) == ChtimesResult(policy, old(nodes), path, atime, mtime)
    {
      var o := ChtimesResult(policy, nodes, path, atime, mtime);
      nodes, err := o.nodes, o.err;
    }

    /** `setAttrs`: the errors of both calls are dropped. */
    method SetAttrs(target: Path, header: Header)
      modifies this
      ensures nodes == SetAttrsResult(policy, old(nodes), target, header)
    {
      var chmodErr := Chmod(target, ModeOf(header.mode));
      var chtimesErr := Chtimes(target, header.accessTime, header.modTime);
    }

    /** `decompress(targetdir, reader)`: the walk over the entries the readers deliver. */
    method Decompress(targetdir: Path, archive: Archive) returns (err: Option<Error>)
      modifies this
      ensures Outcome(nodes, err) == DecompressResult(policy, old(nodes), targetdir, archive)
    {
      if archive.GzipFailed? {
        return Some(StreamError(archive.msg));
      }
      var entries, end := archive.entries, archive.end;
      var i := 0;
      while i < |entries|
        invariant 0 <= i <= |entries|
        invariant Walk(policy, old(nodes), targetdir, entries, end) == Walk(policy, nodes, targetdir, entries[i..], end)
      {
        ghost var before := nodes;
        assert entries[i..][0] == entries[i] && entries[i..][1..] == entries[i + 1..];
        var header := entries[i].header;
        var target := Join(targetdir, header.name);
        if header.typeflag == TypeDir {
          err := MkdirAll(target, ModeOf(header.mode));
          if err.Some? {
            return;
          }
          SetAttrs(target, header);
        } else if header.typeflag == TypeReg {
          err := Create(target);
          if err.Some? {
            return;
          }
          Write(target, entries[i].body);
          if entries[i].copyError.Some? {
            return Some(StreamError(entries[i].copyError.value));
          }
          SetAttrs(target, header);
        } else {
          // unsupported type: logged and skipped
        }
        assert Step(policy, before, targetdir, entries[i]) == Outcome(nodes, None);
        i := i + 1;
      }
      err := if end.Eof? then None else Some(StreamError(end.msg));
    }

    /** `downloadFile(url, filepath)`. */
    method DownloadFile(url: string, filepath: Path, net: string -> Transfer) returns (err: Option<Error>)
      modifies this
      ensures Outcome(nodes, err) == DownloadResult(policy, old(nodes), url, filepath, net)
    {
      err := Create(filepath);
      if err.Some? {
        return;
      }
      var resp := net(url);
      if resp.Refused? {
        return Some(NetError(resp.msg));
      }
      Write(filepath, resp.body);
      err := if resp.cut.Some? then Some(NetError(resp.cut.value)) else None;
    }

    /** `downloadAndExtract(url, downloadPath, finalPath)`. */
    method DownloadAndExtract(url: string, downloadPath: Path, finalPath: Path,
                              net: string -> Transfer, decode: seq<byte> -> Archive)
      modifies this
      ensures nodes == DownloadAndExtractResult(policy, old(nodes), url, downloadPath, finalPath, net, decode)
    {
      var downloadErr := DownloadFile(url, downloadPath, net);
      var reader := OpenArchive(nodes, downloadPath, decode);
      var decompressErr := Decompress(finalPath, reader);
    }
  }
}
