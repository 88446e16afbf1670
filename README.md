# wordlistctl, modelled in Dafny

`wordlistctl` fetches wordlist archives named in a catalog (`archive.json`),
lists them by group and searches them by name. This project models the program's
one source file, `wordlistctl.go`, and proves properties of the model:

- **Catalog** (`catalog.dfy`): the catalog entries, the name-indexed map that
  `convertWordlistToMap` builds (last entry with a name wins), and the
  catalog-order loops of `listRoutine` (group filter, `"."` selects all) and
  `searchRoutine` (over a given regular-expression engine).
- **Disk** (`disk.dfy`): the filesystem as a map from path to node
  (directory or file, with mode and times); `path.Join` with `path.Clean`;
  a path's directory as `os.MkdirAll` computes it; the system calls the program
  makes (`MkdirAll`, `Create`, writes, `Chmod`, `Chtimes`) as functions of the
  map; the tar stream as the readers deliver it; and the `decompress` entry walk
  (`Step`, `Walk`) with its properties: in-order processing, first error stops,
  only EOF succeeds, skipped types change nothing, what each turn can touch, and
  the extraction round trip. On a well-formed disk (every node's directory is a
  directory, which every call keeps) the failure of `MkdirAll` and of a
  directory entry is stated exactly, however many directories are missing.
- **Extract** (`extract.dfy`): `downloadFile`, the open of the download and
  `downloadAndExtract` as functions, and the filesystem as a `FileSystem` object
  whose methods change it: the system calls, `SetAttrs`, `Decompress` (the walk
  as a loop), `DownloadFile` and `DownloadAndExtract`. Each method is proved
  equal to the function that describes it, in Disk or in Extract.
- **Fetch** (`fetch.dfy`): the path derivation of `fetchOne` and `fetchMulti`
  (including `fetchMulti`'s missing dot before `tar.gz`), the calls of
  `downloadAndExtract` they make, and the two routines as methods.
- **Cli** (`cli.dfy`): `main`'s decisions (catalog present, valid mode, one
  search term, exactly one of `-n`/`-g` for `fetch`) and its dispatch.

What the program does, as the model has it:

- `decompress` always reads gzip and then tar; there is no format detection and
  no unpacking of further layers.
- Nothing is cleaned up: the downloaded temporary file stays where it is.
- Both `fetchOne` and `fetchMulti` extract into `<basedir>/<name>`.
- The HTTP status code is not checked, and a failed download still goes on to
  the open and the extraction of whatever is at the download path.
- Nobody creates `<basedir>/<name>`: `decompress` creates only directories that
  have a directory entry in the archive (with `MkdirAll`, which makes the ones
  above too), so a regular file whose directory is missing fails with ENOENT.
- Entry names are joined and cleaned, not checked: `..` elements can lead
  outside the target directory.

Inputs the program gets from outside are parameters: the network
(`net: string -> Transfer`), the gzip+tar decoding of a file's bytes
(`decode: seq<byte> -> Archive`), the regular-expression engine, `os.TempDir()`,
whether `archive.json` exists, and the parsed flag values. The filesystem's fixed
facts (unwritable paths, umask, the clock) are the `Policy` of a `FileSystem`.

## Model

| member | source | states |
|---|---|---|
| Catalog.MapOf | wordlistctl.go:186-192 | the map's key set is exactly the set of names in the catalog |
| Catalog.MapOfLastWins | wordlistctl.go:186-192 | for an entry that no later entry shares a name with, the map holds that entry's info under its name (last write wins) |
| Catalog.LastEntryExists | wordlistctl.go:186-192 | every name in the catalog has a last entry, so the map is determined by the last-wins rule |
| Catalog.ConvertWordlistToMap | wordlistctl.go:186-192 | the loop builds exactly the last-wins map, whose keys are the catalog's names |
| Catalog.FilterAppend | wordlistctl.go:323-329 | the selection loops keep catalog order: selecting from a concatenation concatenates the selections |
| Catalog.FilterMembership | wordlistctl.go:323-329 | an element is selected exactly when it is in the catalog and passes the test |
| Catalog.FilterKeepsAll | wordlistctl.go:325 | when every entry passes, the selection is the whole catalog in order |
| Catalog.ListRoutine | wordlistctl.go:323-329 | prints exactly the entries whose group equals the argument, or all of them for `"."`, in catalog order |
| Catalog.MatchString | wordlistctl.go:293-296 | a match fails exactly when the pattern does not compile, and a failed match matches nothing |
| Catalog.SearchRoutine | wordlistctl.go:291-301 | prints exactly the entries whose name the compiled pattern matches, in catalog order; an invalid pattern is reported once per entry and prints nothing |
| Disk.ModeOf | wordlistctl.go:274 | the nine permission bits of the header's mode always reach `chmod` (and `mkdir` at line 243), and a mode below bit 20 arrives as exactly those bits |
| Disk.ModeOfDropsTarSetuid | wordlistctl.go:274 | the header's setuid bit is not restored: mode 04755 becomes 0755 |
| Disk.MkdirResult | wordlistctl.go:243 | one `mkdir`: fails exactly when its directory is missing or a file, the path exists, or it is unwritable; otherwise adds the directory with the umask applied and touches the directory above |
| Disk.MkdirAllResult | wordlistctl.go:243 | changes only the path and the directories above it, never a file; an existing directory is success with nothing changed, anything else there is ENOTDIR; a new path whose directory is a file is ENOTDIR; with the directory above in place, it fails exactly for an unwritable path and otherwise adds just that directory |
| Disk.TreeAncestorsAreDirs | wordlistctl.go:243 | on a well-formed disk (every node's directory is a directory), everything above a present path is a directory |
| Disk.MkdirAllFailsExactly | wordlistctl.go:243 | on a well-formed disk, `MkdirAll` fails exactly when the path or a directory above it is a file, or when a directory it has to make is unwritable, however far up its first existing directory is |
| Disk.MkdirAllMakesChain | wordlistctl.go:243 | on a well-formed disk, a successful `MkdirAll` leaves the path and every directory above it a directory |
| Disk.MkdirAllKeepsTree | wordlistctl.go:243 | `MkdirAll` keeps a well-formed disk well formed |
| Disk.CreateKeepsTree | wordlistctl.go:252 | `Create` keeps a well-formed disk well formed |
| Disk.CreateResult | wordlistctl.go:252 | fails with nothing changed exactly when the file's directory is missing or a file, the path is a directory, or it is unwritable; otherwise the path holds an empty file, and a new file touches its directory |
| Disk.Join | wordlistctl.go:240 | a joined target is empty only when both parts are, and a target in a rooted directory (or a rooted name with no directory) is rooted |
| Disk.WriteResult | wordlistctl.go:256 | the written bytes are appended to the file, and nothing else changes |
| Disk.ChmodResult | wordlistctl.go:274 | changes only the path and keeps its kind; fails with nothing changed exactly when the path is missing (ENOENT) or unwritable (EACCES); otherwise only the mode is new |
| Disk.ChtimesResult | wordlistctl.go:275 | changes only the path and keeps its kind; fails with nothing changed exactly when the path is missing (ENOENT) or unwritable (EACCES); otherwise only the two times are new |
| Disk.SetAttrsResult | wordlistctl.go:273-276 | changes only the target; a writable existing target gets the header's mode and times; an unwritable one is left as it was |
| Disk.ExtractDir | wordlistctl.go:242-249 | the directory case: with the directory above in place, fails exactly for a non-directory or an unwritable new target; a new target whose directory is a file fails; on success the target is the directory with the header's mode and times, and a new directory's parent is touched |
| Disk.ExtractFile | wordlistctl.go:251-263 | the regular-file case: fails exactly for a missing or non-directory parent, a directory at the target, an unwritable target or a failed copy (leaving the bytes copied so far); on success the target is the file with the entry's bytes and the header's mode and times |
| Disk.Step | wordlistctl.go:240-268 | one header changes only its target and the directories above it, removes nothing and changes no other file; a file fails exactly for a missing or non-directory parent, a directory or unwritable target, or a failed copy; a directory fails, with its directory in place, exactly for a non-directory or unwritable new target, and for a new target whose directory is a file; on success the target holds the restored node and a new entry's parent is touched; other types change nothing |
| Disk.StepKeepsTree | wordlistctl.go:240-268 | one header keeps a well-formed disk well formed |
| Disk.StepDirFailsExactly | wordlistctl.go:242-249 | on a well-formed disk, a directory entry fails exactly when its target's chain holds a file or an unwritable directory still to be made, and on success the target and everything above it are directories, whether or not the target's directory existed before |
| Disk.Walk | wordlistctl.go:232-269 | the loop never removes a path or changes its kind, and returns nil only when the stream ends with EOF |
| Disk.WalkKeepsTree | wordlistctl.go:232-269 | the whole walk keeps a well-formed disk well formed, so the per-header failure conditions hold at every turn |
| Disk.DecompressResult | wordlistctl.go:224-271 | a gzip failure returns that error with nothing changed; otherwise nothing is removed or changes kind, only EOF after the last header means success, and an empty tar stream changes nothing |
| Disk.WalkAppend | wordlistctl.go:232-239 | headers are applied in order, and once a prefix fails, later headers and the end of the stream are not applied |
| Disk.WalkSkipsUnsupported | wordlistctl.go:265-267 | entries of other types change nothing and the walk goes on to the end of the stream |
| Disk.WalkFrame | wordlistctl.go:240 | the walk writes only at `path.Join(targetdir, name)` of extracted entries and the directories above those |
| Disk.WalkKeepsFiles | wordlistctl.go:251-263 | an existing file that no extracted entry targets is left as it was |
| Disk.WalkRestoresEntries | wordlistctl.go:241-264 | after a successful walk, an extracted entry with a writable target that no later entry targets has there the directory or file with the header's mode and times (and, for a file, the entry's bytes); for a directory, when no later entry lies below it |
| Disk.WalkIntoFreshPathsSucceeds | wordlistctl.go:232-270 | extracting an intact stream into new, writable, distinct paths, each with its directory already there or made by an earlier directory entry, reaches EOF and returns nil |
| Disk.WalkNeedsDirectoryForFile | wordlistctl.go:251-255 | a regular file whose directory is missing stops the walk with ENOENT and changes nothing |
| Extract.DownloadResult | wordlistctl.go:198-220 | changes only the file and its directory; fails exactly when `Create` fails, the connection is refused or the transfer breaks off; once created, the file holds exactly the bytes that arrived |
| Extract.OpenArchive | wordlistctl.go:280-284 | a missing download file or a directory there makes the gzip reader fail; a file's bytes are what the readers decode |
| Extract.DownloadAndExtractResult | wordlistctl.go:278-285 | no path is removed or changes kind, and a download file that could be created stays behind as a file |
| Extract.StaleDownloadIsExtracted | wordlistctl.go:278-285 | when the download file cannot be created, an older file at that path is extracted instead |
| Extract.RefusedDownloadIsExtracted | wordlistctl.go:278-285 | a refused connection leaves an empty file, and that empty file is handed to the readers |
| Extract.FileSystem.MkdirAll | wordlistctl.go:243 | the call's new state and error are those of `MkdirAllResult` |
| Extract.FileSystem.Create | wordlistctl.go:252 | the call's new state and error are those of `CreateResult`, and success leaves a file at the path |
| Extract.FileSystem.Write | wordlistctl.go:256 | the call's new state is that of `WriteResult` |
| Extract.FileSystem.Chmod | wordlistctl.go:274 | the call's new state and error are those of `ChmodResult` |
| Extract.FileSystem.Chtimes | wordlistctl.go:275 | the call's new state and error are those of `ChtimesResult` |
| Extract.FileSystem.SetAttrs | wordlistctl.go:273-276 | chmod then chtimes, with both errors dropped |
| Extract.FileSystem.Decompress | wordlistctl.go:224-271 | a gzip failure returns at once with nothing changed; otherwise the new filesystem and the error are those of the walk |
| Extract.FileSystem.DownloadFile | wordlistctl.go:198-220 | its new state and error are those of `DownloadResult` |
| Extract.FileSystem.DownloadAndExtract | wordlistctl.go:278-285 | decompresses whatever is at the download path after the download, whatever the download returned |
| Fetch.OneDownloadPath | wordlistctl.go:305 | `fetchOne`'s download file lies directly in the temporary directory |
| Fetch.MultiDownloadPath | wordlistctl.go:318 | `fetchMulti`'s download file lies directly in the temporary directory |
| Fetch.FinalPath | wordlistctl.go:306 | the destination lies directly in the base directory |
| Fetch.DownloadPathsDiffer | wordlistctl.go:303-321 | `fetchMulti`'s temporary path for a name never equals `fetchOne`'s; it equals `fetchOne`'s path for the name followed by a dot |
| Fetch.RunJobs | wordlistctl.go:316-320 | a sequence of `downloadAndExtract` calls never removes a path or changes its kind |
| Fetch.FetchOneCalls | wordlistctl.go:303-313 | no call when the name is absent; otherwise exactly one, with the last such entry's URL, `TempDir/<name>.tar.gz` and `<basedir>/<name>` |
| Fetch.FetchOne | wordlistctl.go:303-313 | reports not-found exactly when the name is absent and then leaves the filesystem untouched; otherwise its effect is that one call |
| Fetch.FetchMultiCalls | wordlistctl.go:315-321 | one call per entry of the group |
| Fetch.FetchMultiCallsFollowGroup | wordlistctl.go:315-321 | the k-th call is for the k-th entry of the group in catalog order, with its URL, `TempDir/<name>tar.gz` and `<basedir>/<name>` |
| Fetch.FetchMulti | wordlistctl.go:315-321 | makes exactly those calls in that order, and its effect is theirs applied in sequence |
| Cli.SelectFetch | wordlistctl.go:140-152 | both selectors at `"."` or both set: exit 2; only the name set: `fetchOne`; only the group set: `fetchMulti` |
| Cli.Dispatch | wordlistctl.go:110-158 | no catalog file: exit 2; no command or an unknown mode: exit 1; `search` runs exactly with one term and otherwise exits 1; `list` always runs; `fetch` is decided by the selector rule |
| Cli.FetchNeedsExactlyOneSelector | wordlistctl.go:138-152 | `fetch` with both or neither selector exits with status 2 |
| Cli.Run | wordlistctl.go:130-158 | carries out the chosen action; only the fetch actions change the filesystem |

## Left out

- The HTTP transfer in `downloadFile` is a given function from URL to a response or a failure. Network I/O has no model here.
- gzip and tar decoding (`compress/gzip`, `archive/tar`) are foreign library code. The headers and bytes they deliver are the `decode` input. A fault in the compressed stream shows up as an entry's `copyError` or as a `ReadError` end when the readers reach it; a bad gzip checksum after the end of the tar stream may not be reported at all, since `decompress` stops reading at the tar EOF.
- Loading and parsing `archive.json` (`getAllWordlists`, and its panic on bad JSON) are left out. The catalog is an input.
- `fileExist` (`os.Stat`) is left out. Whether the catalog file exists is an input.
- The regular-expression engine is given: whether a pattern compiles and whether it matches a name are inputs.
- `Disk.Join` and `Disk.Clean` follow the library's `path.Join` and `path.Clean` step by step; beyond emptiness and rootedness, no property of them (such as `Clean` being idempotent) is proved.
- Symbolic links are not modelled, and neither is the kernel's own resolution of `.`, `..` and repeated slashes in a path handed to a system call unjoined. The temporary download path is used as a key verbatim; the paths `decompress` uses come out of `path.Join` and are already clean.
- The root and the working directory always exist, and their times are not tracked.
- Disk.MkdirAllResult: a cleaned target can be `/`, `.` or start with `..` (an entry name that climbs out, or a relative base directory); the model then adds a node keyed by that path, although the kernel resolves it to the root, the working directory or a directory above it, which already exist.
- Permissions are a set of unwritable paths. Write and search permission on directories, and ownership, are not modelled.
- Only the modification time of a directory changes when an entry is added to it. Change times and access times of directories are not modelled.
- `MkdirAll`'s second look after a failed `Mkdir` (it forgives the failure when a directory is there after all) is left out. Nothing else writes the filesystem, so that look cannot find one.
- `Chmod` and `Chtimes` find a path that is in the map without looking at its directories.
- A `Chtimes` with a zero time is not treated specially. Times are plain integers and are set as given.
- Printing, usage text, `log.Printf` for skipped types, `flag` parsing and `os.Exit` are left out. Dispatch returns the exit status; the listing routines return the entries they print.
- Cli.Dispatch: a leading flag (`-h` or an unknown one) makes `flag.Parse` call `usage`, which exits with status 1 before the catalog check; `Dispatch` takes `args[0]` not to be a flag.
- Closing files and the handle leaks on error paths are left out. They leave no state in the model.
- Write failures from the disk (for example, a full disk) are not modelled. A copy fails only as the archive entry or the transfer says.
