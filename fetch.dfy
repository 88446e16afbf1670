/**
 * `fetchOne` and `fetchMulti`: the download and destination paths each request
 * derives, and the calls of `downloadAndExtract` they make.
 */
module Fetch {
  import opened Common
  import opened Catalog
  import opened Disk
  import opened Extract

  /**
   * The temporary archive path of `fetchOne`: `TempDir/<name>.tar.gz`, a file
   * directly in the temporary directory when the name is one path element.
   */
  function OneDownloadPath(tempDir: Path, name: string): (r: Path)
    ensures 1 <= |tempDir| && NoSlash(name) ==> Parent(r) == Some(tempDir)
  {
    var r := tempDir + "/" + name + ".tar.gz";
    if 1 <= |tempDir| && NoSlash(name) then
      assert r == tempDir + "/" + (name + ".tar.gz");
      ParentOfAppended(tempDir, name + ".tar.gz");
      r
    else r
  }

  /**
   * The temporary archive path of `fetchMulti`: `TempDir/<name>tar.gz`, without
   * the dot, also directly in the temporary directory.
   */
  function MultiDownloadPath(tempDir: Path, name: string): (r: Path)
    ensures 1 <= |tempDir| && NoSlash(name) ==> Parent(r) == Some(tempDir)
  {
    var r := tempDir + "/" + name + "tar.gz";
    if 1 <= |tempDir| && NoSlash(name) then
      assert r == tempDir + "/" + (name + "tar.gz");
      ParentOfAppended(tempDir, name + "tar.gz");
      r
    else r
  }

  /**
   * Where both extract to: `<basedir>/<name>`, directly in the base directory
   * (neither caller creates it).
   */
  function FinalPath(basedir: Path, name: string): (r: Path)
    ensures 1 <= |basedir| && NoSlash(name) ==> Parent(r) == Some(basedir)
  {
    if 1 <= |basedir| && NoSlash(name) then
      ParentOfAppended(basedir, name);
      basedir + "/" + name
    else basedir + "/" + name
  }

  /**
   * The two call sites name the same download differently: `fetchMulti`'s path for
   * a name is never `fetchOne`'s, and is `fetchOne`'s path for the name with a dot appended.
   */
  lemma DownloadPathsDiffer(tempDir: Path, name: string)
    ensures MultiDownloadPath(tempDir, name) != OneDownloadPath(tempDir, name)
    ensures MultiDownloadPath(tempDir, name + ".") == OneDownloadPath(tempDir, name)
  {
    assert |MultiDownloadPath(tempDir, name)| + 1 == |OneDownloadPath(tempDir, name)|;
    assert tempDir + "/" + (name + ".") + "tar.gz" == tempDir + "/" + name + ".tar.gz";
  }

  /** One call of `downloadAndExtract(url, downloadPath, finalPath)`. */
  datatype Job = Job(url: string, downloadPath: Path, finalPath: Path)

  /** The effect of a sequence of calls, made in order; nothing is ever removed. */
  function RunJobs(p: Policy, nodes: map<Path, Node>, jobs: seq<Job>,
                   net: string -> Transfer, decode: seq<byte> -> Archive): (r: map<Path, Node>)
    ensures Grows(nodes, r)
  {
    if jobs == [] then nodes
    else
      var last := jobs[|jobs| - 1];
      DownloadAndExtractResult(p, RunJobs(p, nodes, jobs[..|jobs| - 1], net, decode),
                               last.url, last.downloadPath, last.finalPath, net, decode)
  }

  /** One more call after `jobs`. */
  lemma RunJobsThen(p: Policy, nodes: map<Path, Node>, jobs: seq<Job>, job: Job,
                    net: string -> Transfer, decode: seq<byte> -> Archive)
    ensures RunJobs(p, nodes, jobs + [job], net, decode) ==
      DownloadAndExtractResult(p, RunJobs(p, nodes, jobs, net, decode), job.url, job.downloadPath, job.finalPath, net, decode)
  {
    assert (jobs + [job])[..|jobs|] == jobs;
  }

  // ---------------------------------------------------------------------------
  // fetchOne
  // ---------------------------------------------------------------------------

  /**
   * The calls `fetchOne` makes: none when the name is not in the catalog, otherwise
   * one, for the last entry with that name.
   */
  function FetchOneCalls(wordlistArray: seq<Wordlist>, name: string, basedir: Path, tempDir: Path): (calls: seq<Job>)
    ensures calls == [] <==> name !in Names(wordlistArray)
    ensures |calls| <= 1
    ensures forall i :: 0 <= i < |wordlistArray| && wordlistArray[i].name == name && LastWithName(wordlistArray, i) ==>
      calls == [Job(wordlistArray[i].info.url, OneDownloadPath(tempDir, name), FinalPath(basedir, name))]
  {
    var m := MapOf(wordlistArray);
    forall i | 0 <= i < |wordlistArray| && wordlistArray[i].name == name && LastWithName(wordlistArray, i)
      ensures m[name] == wordlistArray[i].info
    {
      MapOfLastWins(wordlistArray, i);
    }
    if name in m then [Job(m[name].url, OneDownloadPath(tempDir, name), FinalPath(basedir, name))] else []
  }

  /**
   * `fetchOne`: `found` is false exactly when the "no wordlist found" error is
   * reported, and then the filesystem is untouched.
   */
  method FetchOne(fs: FileSystem, wordlistArray: seq<Wordlist>, name: string, basedir: Path, tempDir: Path,
                  net: string -> Transfer, decode: seq<byte> -> Archive)
    returns (found: bool)
    modifies fs
    ensures found == (name in Names(wordlistArray))
    ensures !found ==> fs.nodes == old(fs.nodes)
    ensures fs.nodes == RunJobs(fs.policy, old(fs.nodes), FetchOneCalls(wordlistArray, name, basedir, tempDir), net, decode)
  {
    var wordlistMap := ConvertWordlistToMap(wordlistArray);
    var downloadPath := OneDownloadPath(tempDir, name);
    var finalPath := FinalPath(basedir, name);
    found := name in wordlistMap;
    if found {
      fs.DownloadAndExtract(wordlistMap[name].url, downloadPath, finalPath, net, decode);
      assert [Job(wordlistMap[name].url, downloadPath, finalPath)][..0] == [];
    }
  }

  // ---------------------------------------------------------------------------
  // fetchMulti
  // ---------------------------------------------------------------------------

  /** The test `fetchMulti` applies to each entry. */
  function GroupKeep(group: string): Wordlist -> bool
  {
    (w: Wordlist) => w.info.group == group
  }

  function MultiJob(w: Wordlist, basedir: Path, tempDir: Path): Job
  {
    Job(w.info.url, MultiDownloadPath(tempDir, w.name), FinalPath(basedir, w.name))
  }

  /** The calls `fetchMulti` makes, in the order it makes them. */
  function FetchMultiCalls(wordlistArray: seq<Wordlist>, group: string, basedir: Path, tempDir: Path): (calls: seq<Job>)
    ensures |calls| == |Filter(wordlistArray, GroupKeep(group))|
  {
    if wordlistArray == [] then []
    else
      var w := wordlistArray[|wordlistArray| - 1];
      FetchMultiCalls(wordlistArray[..|wordlistArray| - 1], group, basedir, tempDir)
        + (if w.info.group == group then [MultiJob(w, basedir, tempDir)] else [])
  }

  /** One more catalog entry examined. */
  lemma FetchMultiCallsThen(wordlistArray: seq<Wordlist>, i: int, group: string, basedir: Path, tempDir: Path)
    requires 0 <= i < |wordlistArray|
    ensures FetchMultiCalls(wordlistArray[..i + 1], group, basedir, tempDir) ==
      FetchMultiCalls(wordlistArray[..i], group, basedir, tempDir)
        + (if wordlistArray[i].info.group == group then [MultiJob(wordlistArray[i], basedir, tempDir)] else [])
  {
    assert wordlistArray[..i + 1][..i] == wordlistArray[..i];
  }

  /**
   * `fetchMulti` makes one call per entry of the group, in catalog order, each with
   * that entry's URL, its dot-less download path and `<basedir>/<name>`.
   */
  lemma {:induction false} FetchMultiCallsFollowGroup(wordlistArray: seq<Wordlist>, group: string,
                                                      basedir: Path, tempDir: Path)
    ensures var calls := FetchMultiCalls(wordlistArray, group, basedir, tempDir);
      var selected := Filter(wordlistArray, GroupKeep(group));
      |calls| == |selected| && forall k :: 0 <= k < |calls| ==> calls[k] == MultiJob(selected[k], basedir, tempDir)
  {
    if wordlistArray != [] {
      FetchMultiCallsFollowGroup(wordlistArray[..|wordlistArray| - 1], group, basedir, tempDir);
    }
  }

  /** `fetchMulti`: `calls` are the calls of `downloadAndExtract` it makes. */
  method FetchMulti(fs: FileSystem, wordlistArray: seq<Wordlist>, group: string, basedir: Path, tempDir: Path,
                    net: string -> Transfer, decode: seq<byte> -> Archive)
    returns (calls: seq<Job>)
    modifies fs
    ensures calls == FetchMultiCalls(wordlistArray, group, basedir, tempDir)
    ensures fs.nodes == RunJobs(fs.policy, old(fs.nodes), calls, net, decode)
  {
    calls := [];
    for i := 0 to |wordlistArray|
      invariant calls == FetchMultiCalls(wordlistArray[..i], group, basedir, tempDir)
      invariant fs.nodes == RunJobs(fs.policy, old(fs.nodes), calls, net, decode)
    {
      FetchMultiCallsThen(wordlistArray, i, group, basedir, tempDir);
      var wordlist := wordlistArray[i];
      if wordlist.info.group == group {
        var job := MultiJob(wordlist, basedir, tempDir);
        fs.DownloadAndExtract(job.url, job.downloadPath, job.finalPath, net, decode);
        RunJobsThen(fs.policy, old(fs.nodes), calls, job, net, decode);
        calls := calls + [job];
      }
    }
    assert wordlistArray[..|wordlistArray|] == wordlistArray;
  }
}
