# glint-vm core, modelled in Dafny

glint-vm is a version manager for golangci-lint. This project models its core and proves properties of that model:

- **Version text handling.**
  - Versions are normalised by adding a `v` prefix.
  - A strict `v<digits>.<digits>.<digits>` validator decides which versions are acceptable.
  - Eleven named extraction patterns sit in a fixed priority table.
  - Three combinators search text with that table: first pattern wins, all distinct versions, first matching line.
- **Source resolution.** Six scanners run in a fixed priority order over a project directory: the `.golangci-lint.version` file, GitHub Actions workflows, Semaphore, Makefiles, CircleCI and GitLab CI. Two searches combine them: the first result found, and all results.
- **The cache of installed versions.** This covers:
  - listing installed versions, sorted by semantic version and then by modification time;
  - removing one version, all versions, all but the newest `keep`, or the incomplete ones;
  - the total size;
  - the "current" symlink that activates one version.
- **The installer.** This covers:
  - the download URLs;
  - whether the checksum is skipped or verified;
  - choosing the binary from the archive;
  - the size cap and permission step of extraction;
  - which failures delete the half-installed version directory;
  - the GitHub releases query and its filter on stable releases.

The modules follow the repository's packages:

| file | module | models |
|---|---|---|
| `wrappers.dfy` | `Wrappers` | `Option`, `Result`, first-`Some` search |
| `text.dfy` | `Text` | the `strings` and `strconv` helpers the code relies on: `TrimSpace`, `TrimPrefix`, `Split` on `"\n"`, decimal formatting |
| `disk.dfy` | `Disk` | the cache directory as an immutable tree: version directories with their files and the `current` directory of links |
| `config.go` → `config.dfy` | `Config` | paths, `NormalizeVersion`, `BinaryExists`, the current-version link |
| `patterns.go` → `patterns.dfy` | `Patterns` | the eleven patterns, `ExtractVersion`, `FindVersion`, `FindAllVersions`, `ExtractVersionFromLines`, `ValidateVersion` |
| `sources.go` → `sources.dfy` | `Sources` | the six scanners, `DetectVersion`, `DetectVersionFromAll` |
| `cache.go` → `cache.dfy` | `Cache` | `List` and its sort, the removers, `GetTotalSize`, `EnsureVersionDir`, `IsCached` |
| `downloader.go` → `downloader.dfy` | `Downloader` | URLs, checksum decision, entry selection, extraction, the `Download` control flow |
| `github.go` → `releases.dfy` | `Releases` | the releases URL, status check and stable filter |

Nothing here performs I/O. Everything the program reads from the outside world is a parameter of the function that uses it:

- the environment (`XDG_CACHE_HOME`, the home directory);
- the file system (a `Disk.Tree`, or a `Sources.Workspace` map from relative path to node);
- the clock (`now`);
- the host OS (`runtime.GOOS`, a field of the tree);
- the HTTP replies, the SHA-256 digest and the archive's entries (a `Downloader.Network`);
- failures of `mkdir`, `symlink`, file creation and `chmod` (the `Faults` and `WriteFaults` flags).

`internal/downloader/downloader.go:216` compares the strings exactly, so an upper-case expected digest never matches the lower-case hex of the archive (`Downloader.ChecksumIsCaseSensitive`).

## Model

| member | source | states |
|---|---|---|
| Config.GetCacheDir | internal/config/config.go:49-66 | with `XDG_CACHE_HOME` set, the cache dir is the entry `glint-vm` directly inside it; otherwise it is an error exactly when there is no home directory, and that error is the only one; with a non-empty home it is `glint-vm` inside `.cache` inside the home, and with an empty home it is the relative `.cache/glint-vm` |
| Config.CacheUnderHome | internal/config/config.go:57-65 | the home fallback's parent is `Join(home, ".cache")` and its name `glint-vm`; for a non-empty home the grandparent is the home itself |
| Config.NormalizeVersion | internal/config/config.go:201-211 | the result is the input or `"v"` + input; empty iff the input is empty; a non-empty result starts with `v`; an input already starting with `v` is unchanged |
| Config.NormalizeIdempotent | internal/config/config.go:201-211 | normalising twice is the same as normalising once |
| Config.PlatformStringSplits | internal/config/config.go:125-127 | when the OS name has no dash, the platform string splits at its first dash into exactly the OS and the architecture |
| Config.BinaryName | internal/config/config.go:12-19 | the binary name is a single path component, ending in `.exe` exactly when the configured OS is windows |
| Config.GetBinaryPath | internal/config/config.go:69-86 | the binary path is `cacheDir/versions/<version>/<binary>`: its base is the binary name and its parent's base is the version |
| Config.GetCurrentBinaryPath | internal/config/config.go:130-142 | the current link lives directly in `cacheDir/current` and is named after the binary |
| Config.DirBaseOfJoin | internal/config/config.go:74-86 | `filepath.Join` of a directory and one component splits back into exactly that directory and component |
| Config.StatBinary | internal/config/config.go:102-111 | a binary is only found inside an existing version directory (for single-component version names) |
| Config.BinaryExistsMeaning | internal/config/config.go:102-121 | for a single-component version name, its binary exists iff the version directory holds a regular file with that name and, unless the host is windows, some execute bit set |
| Config.EnsureVersionDir | internal/config/config.go:90-99 | for a single-component version name: on success the version directory exists; no existing directory is lost or changed; a new one is empty; on failure nothing changes |
| Config.EnsureVersionDirFinds | internal/config/config.go:90-99 | for a single-component version name, after a successful call, looking the version up finds the old directory when there was one, else a fresh empty one stamped `now` |
| Config.SetCurrentVersion | internal/config/config.go:146-174 | a version that is not installed gives the not-installed error and no change; on success the version is installed and the current link, and only it, now points at that version's binary |
| Config.GetCurrentVersion | internal/config/config.go:178-198 | no link gives an empty version and no error; an error happens only when the current binary is not a link |
| Config.SetThenGetCurrent | internal/config/config.go:146-198 | after a successful switch to a single-component version, reading the current version gives exactly that version |
| Text.TrimSpace | internal/detector/sources.go:55 | the trimmed text is a slice of the input that neither starts nor ends with white space |
| Text.SplitLines | internal/detector/patterns.go:167 | splitting on newlines yields at least one line, no line holds a newline, and joining the lines gives back the text |
| Text.SplitLinesCount | internal/detector/patterns.go:167 | splitting yields one more line than the text has newlines |
| Text.IntToDecimal | internal/downloader/github.go:29 | `%d` formatting: the digits decode back to the number, with a leading `-` for negatives |
| Patterns.ValidateVersionMeaning | internal/detector/patterns.go:178-186 | a version is valid iff it is `v` followed by three non-empty digit runs separated by dots and nothing else |
| Patterns.ValidateVersionRejects | internal/detector/patterns.go:178-186 | `""`, `1.55.2`, `v1.55` and `v1.55.2-alpha` are rejected and `v1.55.2` is accepted |
| Patterns.TripleEndComplete | internal/detector/patterns.go:46-59 | the `\d+\.\d+\.\d+` recogniser finds the longest triple starting at a position whenever one is there |
| Patterns.AllPatternsTable | internal/detector/patterns.go:64-80 | the table holds all eleven patterns, each once, with distinct names |
| Patterns.NormalizeCapture | internal/detector/patterns.go:35-59 | every capture group `v?\d+\.\d+\.\d+` survives trimming and normalises to a valid version |
| Patterns.ExtractVersion | internal/detector/patterns.go:115-124 | the extracted version is empty or valid |
| Patterns.ExtractVersionSpec | internal/detector/patterns.go:115-124 | the result is empty iff the pattern matches at no position; otherwise it is the normalised capture of the leftmost match |
| Patterns.FindVersion | internal/detector/patterns.go:127-135 | the version is empty iff the pattern name is; a found version is valid |
| Patterns.FindVersionSpec | internal/detector/patterns.go:127-135 | the result is the version and name of the first pattern in priority order that extracts something; both are empty when none does |
| Patterns.EnvVersionWins | internal/detector/patterns.go:64-80 | whenever the env-version pattern matches, its version and name are the result, whatever else the text holds |
| Patterns.FindAllVersions | internal/detector/patterns.go:138-156 | at most one entry per pattern; every entry's name is the first pattern to extract its version; versions are valid and pairwise distinct, listed in first-pattern order, and every extracted version is listed |
| Patterns.FindAllStartsWithFind | internal/detector/patterns.go:127-156 | the list of all versions is empty iff the first-wins search finds nothing, and otherwise starts with that search's result |
| Patterns.SeenBeforeMeaning | internal/detector/patterns.go:141-151 | a version is in the seen set at pattern `k` iff some earlier pattern extracted it |
| Patterns.ExtractVersionFromLines | internal/detector/patterns.go:166-175 | the line number is 0 iff nothing is found and then no line matches; otherwise it is the 1-based number of the first line that matches, with that line's version and pattern |
| Sources.ReadFile | internal/detector/sources.go:41-48 | a missing path is "does not exist", a file yields its content, and anything else is a read failure |
| Sources.ReadDir | internal/detector/sources.go:88-95 | a missing path is "does not exist", a directory yields its listing, and anything else is a read failure |
| Sources.DetectorNamesDistinct | internal/detector/sources.go:277-286 | the six scanners have distinct names |
| Sources.ScanContent | internal/detector/sources.go:116-124 | a file yields a result iff its line scan finds a version; the result carries that scan's version, pattern and line number and the file's joined path, and is sound and named after the scanner |
| Sources.ScanFile | internal/detector/sources.go:140-164 | a missing file is no result and no error; a path that exists but cannot be read is an error naming the joined path; a readable file gives exactly the line scan of its content |
| Sources.VersionFileDetect | internal/detector/sources.go:38-74 | a missing version file is no result and no error; an unreadable one is an error naming it; a readable one gives its line scan when a line matches, else a result iff the trimmed, normalised content is valid, as `plain-version` on line 1 with that content as version |
| Sources.VersionFileFallback | internal/detector/sources.go:51-65 | when no pattern matches the version file, it yields a result iff its trimmed, normalised content is valid, with pattern `plain-version` on line 1 |
| Sources.Ext | internal/detector/sources.go:104 | `filepath.Ext` is empty, or the last dot-suffix of the final path component |
| Sources.ScanWorkflow | internal/detector/sources.go:98-126 | a readable non-directory entry ending in `.yml` or `.yaml` gives the line scan of its content at `.github/workflows/<name>`; a directory, another extension, a missing or unreadable file gives nothing |
| Sources.GitHubActionsDetect | internal/detector/sources.go:85-129 | a missing workflows directory is no result and no error; an unlistable one is an error naming it; otherwise nothing is found iff no entry yields a result, and a found result is that of an entry with no earlier entry in listing order yielding one |
| Sources.FirstDecisive | internal/detector/sources.go:179-201 | the first candidate from `i` on that is neither missing nor readable without a match; every candidate before it is one of those |
| Sources.ScanNamesSpec | internal/detector/sources.go:175-204 | the Makefile loop is decided by the first candidate that is neither missing nor readable without a match: none means no result and no error, a readable one gives its line scan (a result), an unreadable one is an error naming it |
| Sources.ScanMakefiles | internal/detector/sources.go:175-204 | a Makefile result is sound and named makefile; the loop over `Makefile`, `makefile`, `GNUmakefile` is characterised by Sources.ScanNamesSpec |
| Sources.MakefileFallsThrough | internal/detector/sources.go:179-201 | a missing Makefile name, or a readable one without a match, moves on to the next name |
| Sources.Detect | internal/detector/sources.go:38-274 | every scanner result has a valid version, a line of at least 1, and the scanner's own name as source type |
| Sources.DetectTraced | internal/detector/sources.go:38-274 | every scanner result is the line scan of a readable file in the project, one of the scanner's own paths (any workflow for github-actions), or the version file's plain-version fallback |
| Sources.AbsentIsNotAnError | internal/detector/sources.go:41-48 | a scanner whose files are all missing reports nothing and no error |
| Sources.UnreadableIsAnError | internal/detector/sources.go:41-48 | a scanner whose first file cannot be read reports an error naming that path |
| Sources.FirstFound | internal/detector/sources.go:290-303 | the first found result is none iff no outcome found one, and otherwise is one of the outcomes |
| Sources.CollectFoundSpec | internal/detector/sources.go:306-321 | the collected results come from strictly increasing outcome positions and every position that found something contributes one, so errors and empty outcomes are skipped and repeats are kept; the list is empty iff nothing is found, and it starts with the first found |
| Sources.CollectFoundOrder | internal/detector/sources.go:309-318 | each collected result is the found result of an outcome, at strictly increasing positions that include every position that found something |
| Sources.CollectFoundMembers | internal/detector/sources.go:306-321 | every found result is collected; the collection is empty iff nothing is found, and otherwise starts with the first found |
| Sources.DetectVersion | internal/detector/sources.go:290-303 | a detected version is sound |
| Sources.DetectVersionPriority | internal/detector/sources.go:290-303 | if scanner `k` finds something, some version is detected, and when no earlier scanner finds anything it is scanner `k`'s result |
| Sources.VersionFileWins | internal/detector/sources.go:277-303 | when the version file yields a result, that result is the detected version |
| Sources.DetectVersionFromAll | internal/detector/sources.go:306-321 | at most six results, all sound; each is the result of a scanner at strictly increasing priority positions, carrying that scanner's name, so no source type appears twice |
| Sources.DetectVersionFromAllSpec | internal/detector/sources.go:306-321 | every scanner's result is collected, each result is a scanner's own in priority order with distinct source types, the list is empty iff nothing is detected, and otherwise it starts with the detected version |
| Sources.EmptyProject | internal/detector/sources.go:290-321 | an empty project yields no results |
| Cache.ParseSemverValid | internal/downloader/cache.go:87-102 | the simplified semantic-version parse accepts a name iff its normalised form is a valid version |
| Cache.ParseFormat | internal/downloader/cache.go:87-102 | formatting a parsed version and parsing it back gives the same version |
| Cache.EntryOfSpec | internal/downloader/cache.go:56-84 | an entry is complete iff its binary exists; size and time come from the binary when it is there, else the size is 0 and the time is the directory's |
| Cache.List | internal/downloader/cache.go:41-105 | an absent versions directory lists nothing, without error; the error happens iff the directory cannot be read; otherwise the list is a permutation of the reports built from the version directories |
| Cache.ListContents | internal/downloader/cache.go:56-84 | the list holds exactly one entry per version directory, never a plain file, and no version twice |
| Cache.ListOrder | internal/downloader/cache.go:87-102 | parsable versions come before unparsable ones, in non-increasing version order; unparsable ones are in non-increasing modification-time order |
| Cache.SortSpec | internal/downloader/cache.go:87-102 | the sort output is ordered by the comparator and a permutation of its input |
| Cache.InsertSorted | internal/downloader/cache.go:87-102 | inserting into a sorted list keeps it sorted |
| Cache.RemoveSpec | internal/downloader/cache.go:108-122 | `Remove` normalises its argument; a version that is not there is an error and nothing changes; on success exactly that directory is gone |
| Cache.RemoveEmptyName | internal/downloader/cache.go:108-122 | removing the empty name deletes the whole versions directory's removable contents |
| Cache.RemoveEach | internal/downloader/cache.go:131-144 | the count is at most the number of names, and there is no error iff every removal succeeded (the exact count and error: Cache.RemoveEachOutcome) |
| Cache.RemoveEachConcat | internal/downloader/cache.go:135-142 | a failure does not stop the loop: sweeping `a + b` is sweeping `a` and then `b`, adding the counts, with the last error from `b` when it has one |
| Cache.RemoveEachSingle | internal/downloader/cache.go:136-141 | one name is one removal, counted iff it succeeds, its error becoming the last error |
| Cache.RemoveDirOutcome | internal/downloader/cache.go:112-119 | deleting a directory by name is "not cached" when no entry has the name, a removal failure when it cannot be deleted, and success otherwise |
| Cache.RemoveEachOutcome | internal/downloader/cache.go:131-144 | corrected: removing distinct names by their own names tries every one; the count is the number of deletable names; there is no error iff every name is deletable; otherwise the error is the one the last failing name gives |
| Cache.RemoveAll | internal/downloader/cache.go:125-145 | a failed listing is returned with nothing removed; otherwise at most one removal is counted per listed version, and there is no error iff every one is |
| Cache.RemoveAllSpec | internal/downloader/cache.go:125-145 | corrected: exactly the deletable version directories are gone; plain files and directories that cannot be deleted stay |
| Cache.RemoveAllCount | internal/downloader/cache.go:125-145 | corrected: the count is the number of deletable version directories, and the error is that of the last listed version whose removal fails, none iff none fails |
| Cache.RemoveOldest | internal/downloader/cache.go:148-179 | a negative `keep` is an error with no change; a failed listing is returned with nothing removed; a list no longer than `keep` changes nothing; otherwise at most the versions after the first `keep` are counted, and there is no error iff all of them are |
| Cache.RemoveOldestSpec | internal/downloader/cache.go:148-179 | corrected: the first `keep` listed versions all survive; every later removable one is deleted; nothing is added |
| Cache.RemoveOldestCount | internal/downloader/cache.go:163-178 | corrected: the count is the number of deletable versions after the first `keep`, and the error is that of the last of them whose removal fails |
| Cache.RemoveIncomplete | internal/downloader/cache.go:182-204 | a failed listing is an error with nothing removed; otherwise at most one removal is counted per incomplete version, and there is no error iff every one is |
| Cache.RemoveIncompleteSpec | internal/downloader/cache.go:182-204 | corrected: a version directory survives iff its binary exists or it cannot be deleted, so complete versions are untouched |
| Cache.RemoveIncompleteCount | internal/downloader/cache.go:188-203 | corrected: the count is the number of deletable incomplete versions, and the error is that of the last incomplete version whose removal fails |
| Cache.RemoveEachByName | internal/downloader/cache.go:130-142 | removing a list of names one by one deletes exactly the removable directories with those names |
| Cache.SumSizesPermutation | internal/downloader/cache.go:207-219 | the total size does not depend on the list order |
| Cache.GetTotalSize | internal/downloader/cache.go:207-219 | the total is an error iff listing is; otherwise it is the sum of the listed sizes |
| Cache.EnsureVersionDirAsWritten | internal/downloader/cache.go:222-224 | as written, the call always reports an error, even after the directory was created |
| Cache.EnsureVersionDirAlwaysFails | internal/downloader/cache.go:222-224 | even when it creates a fresh directory, the as-written call reports an error |
| Cache.EnsureVersionDir | internal/downloader/cache.go:222-224 | corrected: an error exactly when the configuration's call fails; on success the version directory exists |
| Cache.CachedIsListedComplete | internal/downloader/cache.go:237-239 | a cached version appears in the listing as complete |
| Cache.RemoveOldestDeletesKept | internal/downloader/cache.go:109 | as written: with directories `abc` (older) and `vabc` (newer), `vabc` is listed first and kept, but sweeping the name `abc` deletes `vabc`, and `abc`, the one ranked oldest, survives |
| Cache.RemoveIncompleteDeletesComplete | internal/downloader/cache.go:109 | as written: with an empty `1.2.3` and a complete `v1.2.3`, removing incomplete versions deletes the complete `v1.2.3` and keeps the incomplete one |
| Cache.RemoveAllMissesBareName | internal/downloader/cache.go:109-113 | as written: with the single deletable directory `1.2.3`, removing all versions removes nothing and reports `v1.2.3` as not cached |
| Cache.RemoveAllByNameDeletesBare | internal/downloader/cache.go:125-145 | corrected: on the same directory, removing all versions by name deletes `1.2.3`, counts one and reports no error |
| Downloader.ArchiveURLParts | internal/downloader/downloader.go:121-128 | the archive URL is the releases URL, then the version, then `golangci-lint-<version without v>-<os>-<arch>.tar.gz`; the checksum URL is the same file with `.sha256` added |
| Downloader.FirstField | internal/downloader/downloader.go:199 | the first field is absent iff the body is all white space; otherwise it is non-empty and contains no white space |
| Downloader.FirstFieldOf | internal/downloader/downloader.go:199 | leading space, a hash, then space or the end: the first field is exactly the hash |
| Downloader.VerifyChecksum | internal/downloader/downloader.go:166-223 | skipped iff no 200 reply arrived; panics iff the body is all white space; verified iff the first field equals the archive's digest; a mismatch reports the two differing values |
| Downloader.ChecksumIsCaseSensitive | internal/downloader/downloader.go:216-218 | an upper-case expected digest does not match the same lower-case digest |
| Downloader.SelectFrom | internal/downloader/downloader.go:245-272 | the chosen entry is the first regular file named like the binary; none when no such entry follows |
| Downloader.SelectBinarySpec | internal/downloader/downloader.go:226-275 | a binary is chosen iff a qualifying entry exists and it is the first one; binary-not-found iff the archive ended cleanly without one |
| Downloader.ModeExamples | internal/downloader/downloader.go:295-300 | the tar mode `0755` carries an execute bit and `0644` does not |
| Downloader.ExtractFile | internal/downloader/downloader.go:277-303 | only the target file changes; a new file holds at most 500 MiB and is executable iff the OS is not windows or the entry's mode is; an existing file is never shortened; success iff create, copy and, off windows, chmod succeed |
| Downloader.Steps | internal/downloader/downloader.go:79-117 | the directory is deleted iff the error is a checksum, extraction or final-check failure; a fetch failure writes nothing; success leaves a ready binary and no archive |
| Downloader.InstallIntoSpec | internal/downloader/downloader.go:79-117 | success leaves the version cached without its archive; no other directory changes; late errors delete the version directory, early ones keep it |
| Downloader.DownloadInstalls | internal/downloader/downloader.go:57-118 | a successful download leaves the normalised version cached, and a fresh install leaves no archive behind |
| Downloader.DownloadIdempotent | internal/downloader/downloader.go:58-63 | downloading again after a success succeeds and changes nothing, whatever the network does |
| Downloader.DownloadKeepsOthers | internal/downloader/downloader.go:57-118 | no other version's directory is touched |
| Downloader.DownloadCleansUp | internal/downloader/downloader.go:88-112 | a checksum, extraction or final-check failure deletes the version directory, when it can be deleted, and nothing else |
| Downloader.DownloadKeepsDirOnEarlyFailure | internal/downloader/downloader.go:73-85 | a directory or fetch failure deletes nothing, so the version directory stays |
| Downloader.DownloadAsWrittenNeverInstalls | internal/downloader/downloader.go:73-76 | as written, a version not yet cached is never installed: the result is always the directory error, with the tree as the configuration's directory call leaves it (an existing directory kept as it was, a missing one created empty, nothing created when mkdir fails) |
| Downloader.DownloadCorrectedInstalls | internal/downloader/downloader.go:57-118 | with the corrected directory call, a full archive, a passing checksum and the platform's binary in the archive, the version ends up cached |
| Releases.ReleasesURLLimit | internal/downloader/github.go:29 | the query is the API URL, then `?per_page=`, then the limit in decimal, from which the limit can be read back |
| Releases.Filter | internal/downloader/github.go:62-70 | the result is no longer than the input and holds exactly the input releases that are neither drafts nor prereleases |
| Releases.FilterConcat | internal/downloader/github.go:62-70 | filtering distributes over concatenation, so input order is kept |
| Releases.FilterKeepsStable | internal/downloader/github.go:62-70 | the filter changes nothing iff every release is stable, and filtering twice is filtering once |
| Releases.FetchAvailable | internal/downloader/github.go:28-71 | releases come back iff a 200 reply decoded; any other status is the API error with that status; the releases are exactly the stable ones |

## Left out

- HTTP, JSON decoding, gzip, tar parsing and SHA-256 are not computed. Their outcomes are inputs: the reply status and body, the decoded releases, the digest, and the archive's entries with how the archive ends.
- Only the observable results of HTTP timeouts, the request's `Accept` header and response-body closing are modelled, as transport failures.
- The eleven regular expressions are hand-written recognisers with leftmost-first RE2 semantics: `.` excludes newline, `\s` is `[\t\n\f\r ]` and `$` is the end of the text. Non-ASCII input is not treated specially.
- Cache.ParseSemver: the semantic-version library is simplified to `v?D+.D+.D+`. Prerelease tags, build metadata and one- or two-part versions it would also accept count as unparsable here. The library also rejects components that overflow `uint64`, while this parse accepts digit runs of any length.
- Cache.GetTotalSize: sizes are unbounded, so the `int64` overflow is not modelled.
- Downloader.ModeHasExec: the process umask is ignored.
- Downloader.ExtractFile: bytes written before a mid-copy failure are not modelled. A target that exists but is not a regular file is covered only by the create-failure flag.
- Downloader.Download: deleting `archive.tar.gz` is assumed to succeed.
- Downloader.Cleanup: the cleanup `os.RemoveAll` either deletes the whole version directory or, when the directory's `removable` flag is off, nothing; a partial deletion is not modelled.
- A version directory that `os.RemoveAll` cannot delete is represented by its `removable` flag.
- A versions directory that exists but cannot be listed is the `Unreadable` state.
- Path joining is plain concatenation with `/`, with no `filepath.Clean`. Version names containing `/` are outside the model, and so are `XDG_CACHE_HOME` and home values that `filepath.Clean` would change, such as `/x/`: the model's cache dir is then `/x//glint-vm` where Go gives `/x/glint-vm`.
- Config.GetCacheDir: the clause for an empty home directory describes a case the program never reaches, because `os.UserHomeDir` reports an error when `$HOME` is empty.
- Config.EnsureVersionDir: only version names that are one path component are modelled faithfully. For the empty name, which `NormalizeVersion("")` produces, Go's `filepath.Join` yields the versions directory itself, so `MkdirAll` creates no version entry. The model instead creates an entry named `""`, which Cache.List then reports.
- Config.EnsureVersionDirFinds: inherits the same gap for the empty name; the entry it finds for `""` does not exist in Go.
- Config.StatBinary: for the empty name Go stats `versions/golangci-lint`, a binary directly inside the versions directory, which the tree cannot hold; the model looks for an entry named `""` instead. `.` and `..` are likewise outside the model.
- Config.BinaryExistsMeaning: the equivalence is stated for the model's lookup, and matches Go only for single-component version names; see Config.StatBinary for the empty name.
- The order of `os.ReadDir` is an input, given as the listing in the tree.
- Everything printed to stdout and stderr is left out.
- `time.Time` is an integer.
- `cmd/glint-vm` is not part of this model: CLI wiring, printing, exit codes and megabyte formatting.
- `internal/shell` is not part of this model: string templating of shell snippets and environment reads.
- `internal/detector/detector.go` is not part of this model: a `Getwd` and `Stat` wrapper around `DetectVersion`.
- `internal/version/version.go` is not part of this model: build constants.
- The `errors.go` files are not part of this model beyond their sentinel errors, which are datatype constructors.
- The constructors `config.New`, `NewCacheManager` and `NewDownloader` are not modelled. Their only logic is `getCacheDir` and `runtime.GOOS`/`GOARCH`, which are `Config.GetCacheDir` and fields of `Config.Config`.
- Sources.Detect: its own contract states soundness and the source type only. The tie of each result to the text of the file it came from is the separate lemma Sources.DetectTraced, and the exact per-scanner results are the contracts of the scanners it dispatches to.
- Cache.RemoveEach: the count and the last error of a sweep are characterised only for removal by name (the corrected behaviour). As written, the renormalised name can miss its directory or hit another one (see Findings), so only Cache.RemoveEachConcat, Cache.RemoveEachSingle and the bounds on Cache.RemoveEach hold for both namings.
- Cache.Sort: Go's `sort.Slice` at `internal/downloader/cache.go:87` is not stable for more than 12 elements, while the model's insertion sort is. Versions that tie on both version and modification time may therefore be ordered differently, and so may which of them RemoveOldest keeps.
- The one-line `GetVersionDir` and `GetBinaryPath` forwarders of the cache manager are not modelled separately; `Config.GetBinaryPath` stands for them.

## Findings

| source | as written | input that shows it | evidently intended | confidence | as-written member | corrected member |
|---|---|---|---|---|---|---|
| internal/downloader/cache.go:222-224 | `EnsureVersionDir` wraps the result of `config.EnsureVersionDir` with `%w`, which returns a non-nil error even when that result is nil, so `Download` always stops at line 74 | any version not yet cached, with a writable cache directory | return nil when the directory was ensured, so the download goes on | high (not executed) | Cache.EnsureVersionDirAsWritten, Downloader.DownloadAsWrittenNeverInstalls | Cache.EnsureVersionDir, Downloader.DownloadCorrectedInstalls |
| internal/downloader/cache.go:163-176 | `RemoveOldest` passes each listed directory name to `Remove`, which normalises it again, so a directory named `abc` deletes `vabc` instead | versions directory holding `abc` (older) and `vabc` (newer), `keep = 1` | delete the listed directory itself, never a kept one | high (not executed) | Cache.RemoveOldestDeletesKept | Cache.RemoveOldestSpec |
| internal/downloader/cache.go:131-137 | `RemoveAll` passes each listed directory name to `Remove`, which normalises it again, so a directory whose name lacks the `v` can never be removed | a versions directory holding only the deletable directory `1.2.3` | delete every listed directory | high (not executed) | Cache.RemoveAllMissesBareName | Cache.RemoveAllSpec, Cache.RemoveAllByNameDeletesBare |
| internal/downloader/cache.go:192-201 | `RemoveIncomplete` passes raw names to `Remove` in the same way, so an incomplete `1.2.3` deletes the complete `v1.2.3` | an empty directory `1.2.3` next to `v1.2.3` holding an executable binary, on linux | delete only incomplete versions | high (not executed) | Cache.RemoveIncompleteDeletesComplete | Cache.RemoveIncompleteSpec |
