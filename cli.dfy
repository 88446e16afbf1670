/**
 * The decisions `main` takes before any work starts: the catalog file must exist,
 * the command must be one of the three modes, `search` takes exactly one term, and
 * `fetch` takes exactly one of a name and a group.
 */
module Cli {
  import opened Common
  import opened Catalog
  import opened Disk
  import opened Extract
  import opened Fetch

  /** What `main` goes on to do, or the status it exits with. */
  datatype Action =
    | Exit(code: nat)
    | RunSearch(term: string)
    | RunList(group: string)
    | RunFetchOne(name: string)
    | RunFetchMulti(group: string)

  const Modes: set<string> := {"search", "list", "fetch"}

  /** The fetch-selector branch: a flag counts as given when it differs from `DefaultStr`. */
  function SelectFetch(name: string, group: string): (a: Action)
    ensures a.Exit? <==> (name == DefaultStr <==> group == DefaultStr)
    ensures a.Exit? ==> a.code == 2
    ensures a.RunFetchOne? <==> name != DefaultStr && group == DefaultStr
    ensures a.RunFetchMulti? <==> name == DefaultStr && group != DefaultStr
    ensures a.RunFetchOne? ==> a.name == name
    ensures a.RunFetchMulti? ==> a.group == group
  {
    if name == DefaultStr then
      if group == DefaultStr then Exit(2) else RunFetchMulti(group)
    else
      if group != DefaultStr then Exit(2) else RunFetchOne(name)
  }

  /**
   * `main` after flag parsing. `args` is `os.Args[1:]`; the three flag values are
   * what the `fetch` and `list` flag sets parsed from the arguments after the mode.
   */
  function Dispatch(catalogExists: bool, args: seq<string>,
                    fetchName: string, fetchGroup: string, listGroup: string): (a: Action)
    ensures !catalogExists ==> a == Exit(2)
    ensures catalogExists && (|args| == 0 || args[0] !in Modes) ==> a == Exit(1)
    ensures a.RunSearch? <==> catalogExists && |args| == 2 && args[0] == "search"
    ensures a.RunSearch? ==> a.term == args[1]
    ensures catalogExists && |args| > 0 && args[0] == "search" && |args| != 2 ==> a == Exit(1)
    ensures a.RunList? <==> catalogExists && |args| > 0 && args[0] == "list"
    ensures a.RunList? ==> a.group == listGroup
    ensures (a.RunFetchOne? || a.RunFetchMulti?) <==>
      catalogExists && |args| > 0 && args[0] == "fetch" && (fetchName == DefaultStr <==> fetchGroup != DefaultStr)
    ensures catalogExists && |args| > 0 && args[0] == "fetch" ==> a == SelectFetch(fetchName, fetchGroup)
  {
    if !catalogExists then Exit(2)
    else if |args| < 1 then Exit(1)
    else if args[0] !in Modes then Exit(1)
    else if args[0] == "search" then
      if |args| != 2 then Exit(1) else RunSearch(args[1])
    else if args[0] == "fetch" then SelectFetch(fetchName, fetchGroup)
    else RunList(listGroup)
  }

  /** Both or neither selector with `fetch` is refused with status 2, whatever the rest. */
  lemma FetchNeedsExactlyOneSelector(args: seq<string>, fetchName: string, fetchGroup: string, listGroup: string)
    requires |args| > 0 && args[0] == "fetch"
    requires (fetchName == DefaultStr) == (fetchGroup == DefaultStr)
    ensures Dispatch(true, args, fetchName, fetchGroup, listGroup) == Exit(2)
  {
  }

  /**
   * `main`'s switch: carry out what `Dispatch` chose. `shown` is what `list` or
   * `search` prints; exits and the listing routines leave the filesystem alone.
   */
  method Run(fs: FileSystem, catalogExists: bool, args: seq<string>,
             fetchName: string, fetchGroup: string, fetchBase: Path, listGroup: string,
             wordlistArray: seq<Wordlist>, tempDir: Path, net: string -> Transfer,
             decode: seq<byte> -> Archive, re: Regexp)
    returns (action: Action, shown: seq<Wordlist>)
    modifies fs
    ensures action == Dispatch(catalogExists, args, fetchName, fetchGroup, listGroup)
    ensures !(action.RunFetchOne? || action.RunFetchMulti?) ==> fs.nodes == old(fs.nodes)
    ensures action.RunList? ==> shown == Filter(wordlistArray, ListKeep(listGroup))
    ensures action.RunSearch? ==> shown == Filter(wordlistArray, NameMatches(action.term, re))
    ensures !(action.RunList? || action.RunSearch?) ==> shown == []
    ensures action.RunFetchOne? ==>
      fs.nodes == RunJobs(fs.policy, old(fs.nodes), FetchOneCalls(wordlistArray, fetchName, fetchBase, tempDir), net, decode)
    ensures action.RunFetchMulti? ==>
      fs.nodes == RunJobs(fs.policy, old(fs.nodes), FetchMultiCalls(wordlistArray, fetchGroup, fetchBase, tempDir), net, decode)
  {
    action := Dispatch(catalogExists, args, fetchName, fetchGroup, listGroup);
    shown := [];
    match action
    case Exit(_) =>
    case RunSearch(term) =>
      var reports;
      shown, reports := SearchRoutine(term, wordlistArray, re);
    case RunList(group) =>
      shown := ListRoutine(wordlistArray, group);
    case RunFetchOne(name) =>
      var found := FetchOne(fs, wordlistArray, name, fetchBase, tempDir, net, decode);
    case RunFetchMulti(group) =>
      var calls := FetchMulti(fs, wordlistArray, group, fetchBase, tempDir, net, decode);
  }
}
