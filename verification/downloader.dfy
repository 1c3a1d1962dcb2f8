/**
 * The installer: the release-asset URLs, the checksum decision, the choice
 * of the binary inside the archive, its extraction, and Download's control
 * flow over the cache tree. The network, gzip and tar decoding and SHA-256
 * are not computed here: each of those steps' outcomes is an input, and the
 * model states what the program does with it.
 */
module Downloader {
  import opened Wrappers
  import opened Text
  import opened Disk
  import Config
  import Cache

  // ---------------------------------------------------------------------
  // Release URLs
  // ---------------------------------------------------------------------

  const ReleasesURL := "https://github.com/golangci/golangci-lint/releases/download"

  /** "golangci-lint-<version without its v>-<os>-<arch>.tar.gz" */
  function ArchiveFileName(c: Config.Config, version: string): string {
    "golangci-lint-" + TrimPrefix(version, "v") + "-" + Config.PlatformString(c) + ".tar.gz"
  }

  /** getDownloadURL: <releases>/<version>/<archive file name>. */
  function ArchiveURL(c: Config.Config, version: string): string {
    ReleasesURL + "/" + version + "/" + ArchiveFileName(c, version)
  }

  /** The published checksum sits next to the archive. */
  function ChecksumURL(c: Config.Config, version: string): string {
    ArchiveURL(c, version) + ".sha256"
  }

  /**
   * For a normalized version and a platform without slashes, the archive
   * URL splits back into the releases location, the version's release
   * directory and a file name that carries the version without its "v"; the
   * checksum file is the archive's name with ".sha256" in the same directory.
   */
  lemma ArchiveURLParts(c: Config.Config, version: string)
    requires |version| > 0 && version[0] == 'v' && '/' !in version
    requires '/' !in c.os && '/' !in c.arch
    ensures var u := ArchiveURL(c, version);
      && Config.Dir(Config.Dir(u)) == ReleasesURL
      && Config.Base(Config.Dir(u)) == version
      && Config.Base(u) == ArchiveFileName(c, version)
      && "v" + TrimPrefix(version, "v") == version
      && Config.Dir(ChecksumURL(c, version)) == Config.Dir(u)
      && Config.Base(ChecksumURL(c, version)) == ArchiveFileName(c, version) + ".sha256"
  {
    var file := ArchiveFileName(c, version);
    var sum := file + ".sha256";
    assert version == "v" + TrimPrefix(version, "v") by { assert HasPrefix(version, "v"); }
    ArchiveFileComponent(c, version);
    assert Config.IsComponent(version);
    var dir := ReleasesURL + "/" + version;
    assert dir == Config.Join(ReleasesURL, version);
    assert ArchiveURL(c, version) == Config.Join(dir, file);
    assert ChecksumURL(c, version) == Config.Join(dir, sum);
    Config.DirBaseOfJoin(ReleasesURL, version);
    Config.DirBaseOfJoin(dir, file);
    Config.DirBaseOfJoin(dir, sum);
  }

  /** Without slashes in the version and the platform, the archive's name and its checksum's name are single path components. */
  lemma ArchiveFileComponent(c: Config.Config, version: string)
    requires '/' !in version && '/' !in c.os && '/' !in c.arch
    ensures Config.IsComponent(ArchiveFileName(c, version))
    ensures Config.IsComponent(ArchiveFileName(c, version) + ".sha256")
  {
    var rest := TrimPrefix(version, "v");
    assert '/' !in rest by {
      if HasPrefix(version, "v") {
        forall k | 0 <= k < |rest| ensures rest[k] != '/' { assert rest[k] == version[k + 1]; }
      }
    }
    var file := ArchiveFileName(c, version);
    assert '/' !in Config.PlatformString(c);
    assert '/' !in file;
    assert file[0] == 'g';
    assert '/' !in file + ".sha256";
    assert (file + ".sha256")[0] == 'g';
  }

  // ---------------------------------------------------------------------
  // Checksum verification
  // ---------------------------------------------------------------------

  const StatusOK := 200

  /** The end of the run of non-space characters starting at `i`. */
  function FieldEnd(s: string, i: nat): (j: nat)
    requires i <= |s|
    ensures i <= j <= |s|
    ensures forall k :: i <= k < j ==> !IsSpace(s[k])
    ensures j == |s| || IsSpace(s[j])
    decreases |s| - i
  {
    if i == |s| || IsSpace(s[i]) then i else FieldEnd(s, i + 1)
  }

  /** strings.Fields(s)[0]: the first run of non-space characters, or None when `s` is all white space. */
  function FirstField(s: string): (r: Option<string>)
    ensures r.None? <==> forall k :: 0 <= k < |s| ==> IsSpace(s[k])
    ensures r.Some? ==> |r.value| > 0 && forall k :: 0 <= k < |r.value| ==> !IsSpace(r.value[k])
  {
    var i := SkipSpace(s, 0);
    if i == |s| then None else Some(s[i..FieldEnd(s, i)])
  }

  /**
   * A checksum file laid out as white space, the digest, then white space
   * (or nothing) and anything else yields that digest as its first field.
   */
  lemma FirstFieldOf(lead: string, h: string, rest: string)
    requires forall k :: 0 <= k < |lead| ==> IsSpace(lead[k])
    requires |h| > 0 && forall k :: 0 <= k < |h| ==> !IsSpace(h[k])
    requires rest == "" || IsSpace(rest[0])
    ensures FirstField(lead + h + rest) == Some(h)
  {
    var s := lead + h + rest;
    assert forall k :: 0 <= k < |lead| ==> s[k] == lead[k];
    assert forall k :: 0 <= k < |h| ==> s[|lead| + k] == h[k];
    var i := SkipSpace(s, 0);
    assert s[|lead|] == h[0];
    assert i == |lead|;
    var j := FieldEnd(s, i);
    assert forall k :: |lead| <= k < |lead| + |h| ==> !IsSpace(s[k]);
    assert |lead| + |h| == |s| || IsSpace(s[|lead| + |h|]) by {
      if |lead| + |h| < |s| { assert s[|lead| + |h|] == rest[0]; }
    }
    assert j == |lead| + |h|;
    assert s[i..j] == h;
  }

  /** Reading the checksum response's body: it failed, or it gave this text. */
  datatype BodyRead = ReadFailed | Body(text: string)

  /** The checksum request: it could not be built, the transport failed, or a response came back. */
  datatype ChecksumFetch = RequestNotBuilt | TransportFailed | Response(status: int, body: BodyRead)

  /**
   * Hashing the downloaded archive: it could not be opened, reading it
   * failed, or this is the lowercase hexadecimal SHA-256 digest of its bytes.
   */
  datatype ArchiveHash = CannotOpen | CannotRead | Digest(hex: string)

  /**
   * What verifyChecksum decides. `Skipped` and `Verified` let the install go
   * on; `Panics` is the index out of range on an all-space body, which ends
   * the program.
   */
  datatype ChecksumVerdict =
    | Skipped
    | Verified
    | BodyUnreadable
    | Panics
    | ArchiveUnopenable
    | ArchiveUnreadable
    | Mismatch(expected: string, actual: string)

  predicate Passes(v: ChecksumVerdict) { v.Skipped? || v.Verified? }

  /**
   * verifyChecksum: skips verification unless the checksum file was served
   * with status 200, then compares the file's first field with the digest
   * exactly (no case folding).
   */
  function VerifyChecksum(fetch: ChecksumFetch, hash: ArchiveHash): (v: ChecksumVerdict)
    ensures v.Skipped? <==> !(fetch.Response? && fetch.status == StatusOK)
    ensures v.Verified? <==> fetch.Response? && fetch.status == StatusOK && fetch.body.Body?
                             && hash.Digest? && FirstField(fetch.body.text) == Some(hash.hex)
    ensures v.Panics? <==> fetch.Response? && fetch.status == StatusOK && fetch.body.Body?
                           && FirstField(fetch.body.text).None?
    ensures v.Mismatch? ==> v.expected != v.actual && hash == Digest(v.actual)
                            && fetch.Response? && fetch.body.Body? && FirstField(fetch.body.text) == Some(v.expected)
  {
    match fetch
    case RequestNotBuilt => Skipped
    case TransportFailed => Skipped
    case Response(status, body) =>
      if status != StatusOK then Skipped
      else match body
        case ReadFailed => BodyUnreadable
        case Body(text) =>
          match FirstField(text)
          case None => Panics
          case Some(field) =>
            var expected := TrimSpace(field);
            TrimSpaceNoSpace(field);
            match hash
            case CannotOpen => ArchiveUnopenable
            case CannotRead => ArchiveUnreadable
            case Digest(actual) => if actual != expected then Mismatch(expected, actual) else Verified
  }

  /** The comparison is exact: a digest published in upper case is a mismatch. */
  lemma ChecksumIsCaseSensitive()
    ensures VerifyChecksum(Response(StatusOK, Body("AB  golangci-lint.tar.gz\n")), Digest("ab")).Mismatch?
  {
    FirstFieldOf("", "AB", "  golangci-lint.tar.gz\n");
  }

  // ---------------------------------------------------------------------
  // Archive contents
  // ---------------------------------------------------------------------

  /** At most this many bytes of the binary are copied out of the archive (500 MiB). */
  const MaxExtractSize: nat := 500 * 1024 * 1024

  datatype EntryKind = Regular | NotRegular

  /**
   * One tar header: the entry's name, kind and permission bits, the length
   * of its data, and whether that data can be read up to the extraction cap.
   */
  datatype TarEntry = TarEntry(name: string, kind: EntryKind, mode: int, size: nat, readable: bool)

  /** How reading the headers ends after the listed entries: at the end of the archive, or with an error. */
  datatype TarEnd = Eof | HeaderError

  /** The downloaded archive as the extractor sees it. */
  datatype Archive = Unopenable | NotGzip | Tar(entries: seq<TarEntry>, end: TarEnd)

  datatype ExtractError =
    | OpenFailed
    | GzipFailed
    | HeaderFailed
    | BinaryNotFound
    | CreateFailed
    | CopyFailed
    | ChmodFailed

  /** The entry names the binary: it ends in "golangci-lint" or "golangci-lint.exe". */
  predicate NamesBinary(name: string) {
    HasSuffix(name, "golangci-lint") || HasSuffix(name, "golangci-lint.exe")
  }

  predicate Selectable(e: TarEntry) {
    NamesBinary(e.name) && e.kind == Regular
  }

  /** The index of the first selectable entry at or after `i`. */
  function SelectFrom(es: seq<TarEntry>, i: nat): (r: Option<nat>)
    requires i <= |es|
    ensures r.Some? ==> i <= r.value < |es| && Selectable(es[r.value])
                        && forall k :: i <= k < r.value ==> !Selectable(es[k])
    ensures r.None? ==> forall k :: i <= k < |es| ==> !Selectable(es[k])
    decreases |es| - i
  {
    if i == |es| then None
    else if Selectable(es[i]) then Some(i)
    else SelectFrom(es, i + 1)
  }

  /**
   * extractArchive's choice: the first regular entry that names the binary;
   * entries that name it but are not regular files are passed over. Without
   * one, the end of the archive means BinaryNotFound and a header error is
   * reported as such.
   */
  function SelectBinary(a: Archive): (r: Result<TarEntry, ExtractError>)
  {
    match a
    case Unopenable => Err(OpenFailed)
    case NotGzip => Err(GzipFailed)
    case Tar(es, end) =>
      match SelectFrom(es, 0)
      case Some(i) => Ok(es[i])
      case None => if end == Eof then Err(BinaryNotFound) else Err(HeaderFailed)
  }

  /** SelectBinary picks the first selectable entry, and fails only when there is none. */
  lemma SelectBinarySpec(es: seq<TarEntry>, end: TarEnd)
    ensures var r := SelectBinary(Tar(es, end));
      && (r.Ok? <==> exists i :: 0 <= i < |es| && Selectable(es[i]))
      && (r.Ok? ==> exists i :: 0 <= i < |es| && es[i] == r.value && Selectable(es[i])
                              && forall k :: 0 <= k < i ==> !Selectable(es[k]))
      && (r == Err(BinaryNotFound) <==> end == Eof && forall i :: 0 <= i < |es| ==> !Selectable(es[i]))
  {
    match SelectFrom(es, 0)
    case Some(i) =>
    case None =>
  }

  /** Whether a permission word has some execute bit: os.FileMode(mode) & 0o111 != 0. */
  predicate ModeHasExec(mode: int) {
    var m := mode % 512;
    m % 2 == 1 || (m / 8) % 2 == 1 || (m / 64) % 2 == 1
  }

  lemma ModeExamples()
    ensures ModeHasExec(0x1ED) && !ModeHasExec(0x1A4)
  {
  }

  function Min(a: nat, b: nat): nat { if a <= b then a else b }
  function Max(a: nat, b: nat): nat { if a <= b then b else a }

  /** Faults the operating system may report while writing the download. */
  datatype WriteFaults = WriteFaults(archiveCreateFails: bool, binaryCreateFails: bool, chmodFails: bool)

  /** The files of the version directory after an extraction step, and its error, if any. */
  datatype FilesStep = FilesStep(files: map<string, FileInfo>, error: Option<ExtractError>)

  /**
   * extractFile: opens the target (file name of the entry) for writing
   * without truncating it, so a new file takes the entry's permission bits
   * and an existing one keeps its own; copies at most MaxExtractSize bytes
   * over its start; then, unless the configured OS is Windows, sets mode 0755.
   * Only the target changes: a new target holds the first MaxExtractSize
   * bytes of the entry, an existing one is never shortened, and after a
   * successful extraction for a non-Windows configuration it is executable.
   */
  function ExtractFile(c: Config.Config, files: map<string, FileInfo>, e: TarEntry, now: int, wf: WriteFaults): (r: FilesStep)
    ensures var target := Config.Base(e.name);
      && (forall n :: n != target ==> (n in r.files <==> n in files) && (n in files ==> r.files[n] == files[n]))
      && (r.error.None? ==> target in r.files)
      && (r.error.None? && target !in files ==>
            r.files[target].regular && r.files[target].size == Min(e.size, MaxExtractSize)
            && (r.files[target].execBits <==> c.os != Config.Windows || ModeHasExec(e.mode)))
      && (r.error.None? && target in files ==>
            files[target].size <= r.files[target].size <= Max(files[target].size, MaxExtractSize))
      && (r.error.None? && c.os != Config.Windows ==> r.files[target].execBits)
      && (r.error.None? <==> !wf.binaryCreateFails && e.readable && (c.os == Config.Windows || !wf.chmodFails))
  {
    var target := Config.Base(e.name);
    if wf.binaryCreateFails then FilesStep(files, Some(CreateFailed))
    else
      var handle := if target in files then files[target] else FileInfo(true, ModeHasExec(e.mode), 0, now);
      if !e.readable then FilesStep(files[target := handle], Some(CopyFailed))
      else
        var written := FileInfo(handle.regular, handle.execBits, Max(handle.size, Min(e.size, MaxExtractSize)), now);
        if c.os == Config.Windows then FilesStep(files[target := written], None)
        else if wf.chmodFails then FilesStep(files[target := written], Some(ChmodFailed))
        else FilesStep(files[target := written.(execBits := true)], None)
  }

  // ---------------------------------------------------------------------
  // Download
  // ---------------------------------------------------------------------

  /** The name the archive is saved under inside the version directory. */
  const ArchiveName := "archive.tar.gz"

  /**
   * The archive request: the transport failed (or the request could not be
   * built), or a response with its status, the number of bytes written to
   * the archive file, and whether the copy completed.
   */
  datatype ArchiveFetch = ArchiveTransportFailed | ArchiveResponse(status: int, size: nat, complete: bool)

  /** Everything Download learns from outside: the two requests, the archive's digest and its decoded contents. */
  datatype Network = Network(archive: ArchiveFetch, checksum: ChecksumFetch, hash: ArchiveHash, contents: Archive)

  /**
   * Which EnsureVersionDir the install uses: the cache manager's as written,
   * which always reports an error, or the corrected one.
   */
  datatype Build = AsWritten | Corrected

  datatype DownloadError =
    | EnsureDirFailed
    | FetchFailed
    | BadStatus(status: int)
    | ArchiveCreateFailed
    | ArchiveWriteFailed
    | ChecksumPanicked
    | ChecksumFailed(verdict: ChecksumVerdict)
    | ExtractFailed(cause: ExtractError)
    | NotInstalled

  /** The tree after Download, and its error, if any. */
  datatype Install = Install(tree: Tree, error: Option<DownloadError>)

  /** The tree with the files of the version directory `e` replaced. */
  function WithFiles(t: Tree, e: VersionEntry, files: map<string, FileInfo>): (r: Tree)
    requires WellFormed(t) && e in Entries(t)
    ensures WellFormed(r) && r.hostOS == t.hostOS && r.current == t.current
    ensures forall x :: x in Entries(r) <==> x == e.(files := files) || (x in Entries(t) && x.name != e.name)
  {
    t.(versions := Listing(Put(Entries(t), e.(files := files))))
  }

  /** os.RemoveAll of the version directory, its error ignored. */
  function Cleanup(t: Tree, version: string): (r: Tree)
    requires WellFormed(t)
    ensures WellFormed(r)
  {
    Cache.RemoveDir(t, version).tree
  }

  /**
   * Download: normalizes the version and returns at once when it is
   * cached. Otherwise it ensures the version directory, fetches the archive
   * into it, checks the checksum, extracts the binary, deletes the archive
   * and confirms the binary is cached. A failure up to and including the
   * fetch leaves the directory in place; a later one deletes it.
   */
  function Download(b: Build, c: Config.Config, t: Tree, version: string, net: Network,
                    f: Faults, wf: WriteFaults, now: int): (r: Install)
    requires WellFormed(t)
    ensures WellFormed(r.tree) && r.tree.hostOS == t.hostOS && r.tree.current == t.current
  {
    var v := Config.NormalizeVersion(version);
    if Cache.IsCached(c, t, v) then Install(t, None)
    else
      var made := if b == AsWritten then Cache.EnsureVersionDirAsWritten(t, v, now, f)
                  else Cache.EnsureVersionDir(t, v, now, f);
      if made.error.Some? then Install(made.tree, Some(EnsureDirFailed))
      else
        Config.EnsureVersionDirFinds(t, v, now, f);
        InstallInto(c, made.tree, Lookup(Entries(made.tree), v).value, net, wf, now)
  }

  /**
   * What Download's steps after EnsureVersionDir do to the version
   * directory: the files it ends with (None when nothing was written),
   * whether it is then deleted, and the error returned.
   */
  datatype DirOutcome = DirOutcome(files: Option<map<string, FileInfo>>, removed: bool, error: Option<DownloadError>)

  /** The binary for this platform is in `files`, regular and executable on `hostOS`. */
  predicate BinaryReady(c: Config.Config, hostOS: string, files: map<string, FileInfo>) {
    var name := Config.BinaryName(c.os);
    name in files && files[name].regular && Config.IsExecutable(hostOS, files[name])
  }

  /** The errors raised after the archive was fetched and checked or extracted, which delete the directory. */
  predicate LateError(err: DownloadError) {
    err.ChecksumFailed? || err.ExtractFailed? || err == NotInstalled
  }

  /** The errors raised before the archive was fully in place, and the checksum panic, which keep the directory. */
  predicate EarlyError(err: DownloadError) {
    err == FetchFailed || err.BadStatus? || err == ArchiveCreateFailed || err == ArchiveWriteFailed || err == ChecksumPanicked
  }

  /**
   * Fetches the archive next to `files`, checks its checksum, extracts the
   * binary, deletes the archive and confirms the binary; a failure after the
   * fetch marks the directory for deletion.
   */
  function Steps(c: Config.Config, hostOS: string, files: map<string, FileInfo>, net: Network,
                 wf: WriteFaults, now: int): (r: DirOutcome)
    ensures r.removed <==> r.error.Some? && LateError(r.error.value)
    ensures r.error.None? || LateError(r.error.value) || EarlyError(r.error.value)
    ensures r.error.Some? && (r.error.value == FetchFailed || r.error.value.BadStatus? || r.error.value == ArchiveCreateFailed) ==>
              r.files.None?
    ensures r.error.None? ==> r.files.Some? && BinaryReady(c, hostOS, r.files.value) && ArchiveName !in r.files.value
  {
    match net.archive
    case ArchiveTransportFailed => DirOutcome(None, false, Some(FetchFailed))
    case ArchiveResponse(status, size, complete) =>
      if status != StatusOK then DirOutcome(None, false, Some(BadStatus(status)))
      else if wf.archiveCreateFails then DirOutcome(None, false, Some(ArchiveCreateFailed))
      else
        var fetched := files[ArchiveName := FileInfo(true, false, size, now)];
        if !complete then DirOutcome(Some(fetched), false, Some(ArchiveWriteFailed))
        else
          var verdict := VerifyChecksum(net.checksum, net.hash);
          if verdict.Panics? then DirOutcome(Some(fetched), false, Some(ChecksumPanicked))
          else if !Passes(verdict) then DirOutcome(Some(fetched), true, Some(ChecksumFailed(verdict)))
          else match SelectBinary(net.contents)
            case Err(x) => DirOutcome(Some(fetched), true, Some(ExtractFailed(x)))
            case Ok(entry) =>
              var x := ExtractFile(c, fetched, entry, now, wf);
              if x.error.Some? then DirOutcome(Some(x.files), true, Some(ExtractFailed(x.error.value)))
              else
                var done := x.files - {ArchiveName};
                if !BinaryReady(c, hostOS, done) then DirOutcome(Some(done), true, Some(NotInstalled))
                else DirOutcome(Some(done), false, None)
  }

  /** Download's steps once the version directory `e` exists. */
  function InstallInto(c: Config.Config, t: Tree, e: VersionEntry, net: Network, wf: WriteFaults, now: int): (r: Install)
    requires WellFormed(t) && e in Entries(t) && e.isDir
    ensures WellFormed(r.tree) && r.tree.hostOS == t.hostOS && r.tree.current == t.current
  {
    var out := Steps(c, t.hostOS, e.files, net, wf, now);
    var written := if out.files.Some? then WithFiles(t, e, out.files.value) else t;
    Install(if out.removed then Cleanup(written, e.name) else written, out.error)
  }

  /** Cleaning up after rewriting a deletable version directory deletes exactly that directory. */
  lemma CleanupRemoves(t: Tree, e: VersionEntry, files: map<string, FileInfo>)
    requires WellFormed(t) && e in Entries(t) && e.removable
    ensures forall x :: x in Entries(Cleanup(WithFiles(t, e, files), e.name)) <==> x in Entries(t) && x.name != e.name
  {
    var t1 := WithFiles(t, e, files);
    LookupFinds(Entries(t1), e.(files := files));
  }

  /** Cleanup never touches another version's directory. */
  lemma CleanupKeepsOthers(t: Tree, n: string)
    requires WellFormed(t)
    ensures forall x: VersionEntry :: x.name != n ==> (x in Entries(Cleanup(t, n)) <==> x in Entries(t))
  {
  }

  /** With the binary ready among the files written, the version is cached. */
  lemma ReadyIsCached(c: Config.Config, t: Tree, e: VersionEntry, files: map<string, FileInfo>)
    requires WellFormed(t) && e in Entries(t) && e.isDir && BinaryReady(c, t.hostOS, files)
    ensures Cache.IsCached(c, WithFiles(t, e, files), e.name)
  {
    var t1 := WithFiles(t, e, files);
    LookupFinds(Entries(t1), e.(files := files));
  }

  /**
   * Once the version directory exists: a success leaves the binary cached
   * and the archive gone; other versions are never touched; a late failure
   * deletes a deletable directory; an early one keeps it.
   */
  lemma InstallIntoSpec(c: Config.Config, t: Tree, e: VersionEntry, net: Network, wf: WriteFaults, now: int)
    requires WellFormed(t) && e in Entries(t) && e.isDir
    ensures var r := InstallInto(c, t, e, net, wf, now);
      && (r.error.None? ==> Cache.IsCached(c, r.tree, e.name)
                            && exists x :: x in Entries(r.tree) && x.name == e.name && ArchiveName !in x.files)
      && (forall x: VersionEntry :: x.name != e.name ==> (x in Entries(r.tree) <==> x in Entries(t)))
      && (r.error.Some? && LateError(r.error.value) && e.removable ==>
            forall x :: x in Entries(r.tree) <==> x in Entries(t) && x.name != e.name)
      && (r.error.Some? && EarlyError(r.error.value) ==>
            exists x :: x in Entries(r.tree) && x.name == e.name && x.isDir)
  {
    var out := Steps(c, t.hostOS, e.files, net, wf, now);
    var written := if out.files.Some? then WithFiles(t, e, out.files.value) else t;
    CleanupKeepsOthers(written, e.name);
    if out.files.Some? {
      assert e.(files := out.files.value) in Entries(written);
      if e.removable { CleanupRemoves(t, e, out.files.value); }
      if out.error.None? { ReadyIsCached(c, t, e, out.files.value); }
    }
  }

  /** The directory Download installs into, once EnsureVersionDir has succeeded. */
  lemma DownloadDir(b: Build, c: Config.Config, t: Tree, v: string, now: int, f: Faults)
    requires WellFormed(t)
    ensures var made := if b == AsWritten then Cache.EnsureVersionDirAsWritten(t, v, now, f)
                        else Cache.EnsureVersionDir(t, v, now, f);
      made.error.None? ==>
        && b == Corrected
        && made.tree == Config.EnsureVersionDir(t, v, now, f).tree
        && Lookup(Entries(made.tree), v).Some?
        && Lookup(Entries(made.tree), v).value in Entries(made.tree)
        && Lookup(Entries(made.tree), v).value.isDir
        && (Lookup(Entries(t), v).None? || Lookup(Entries(t), v).value.removable ==>
              Lookup(Entries(made.tree), v).value.removable)
        && (forall x: VersionEntry :: x.name != v ==> (x in Entries(made.tree) <==> x in Entries(t)))
  {
    Config.EnsureVersionDirFinds(t, v, now, f);
  }

  /**
   * A successful Download leaves the normalized version cached, and when it
   * had to install it, without the downloaded archive.
   */
  lemma DownloadInstalls(b: Build, c: Config.Config, t: Tree, version: string, net: Network,
                         f: Faults, wf: WriteFaults, now: int)
    requires WellFormed(t)
    ensures var v := Config.NormalizeVersion(version); var r := Download(b, c, t, version, net, f, wf, now);
      r.error.None? ==>
        && Cache.IsCached(c, r.tree, v)
        && (!Cache.IsCached(c, t, v) ==> exists x :: x in Entries(r.tree) && x.name == v && ArchiveName !in x.files)
  {
    var v := Config.NormalizeVersion(version);
    if !Cache.IsCached(c, t, v) {
      DownloadDir(b, c, t, v, now, f);
      var made := Cache.EnsureVersionDir(t, v, now, f);
      if b == Corrected && made.error.None? {
        InstallIntoSpec(c, made.tree, Lookup(Entries(made.tree), v).value, net, wf, now);
      }
    }
  }

  /** Downloading again after a successful Download changes nothing and succeeds. */
  lemma DownloadIdempotent(b: Build, c: Config.Config, t: Tree, version: string, net: Network,
                           f: Faults, wf: WriteFaults, now: int,
                           b': Build, net': Network, f': Faults, wf': WriteFaults, now': int)
    requires WellFormed(t)
    requires Download(b, c, t, version, net, f, wf, now).error.None?
    ensures var r := Download(b, c, t, version, net, f, wf, now);
      Download(b', c, r.tree, version, net', f', wf', now') == Install(r.tree, None)
  {
    DownloadInstalls(b, c, t, version, net, f, wf, now);
  }

  /** Download never touches the directory of another version. */
  lemma DownloadKeepsOthers(b: Build, c: Config.Config, t: Tree, version: string, net: Network,
                            f: Faults, wf: WriteFaults, now: int)
    requires WellFormed(t)
    ensures var v := Config.NormalizeVersion(version); var r := Download(b, c, t, version, net, f, wf, now);
      forall x: VersionEntry :: x.name != v ==> (x in Entries(r.tree) <==> x in Entries(t))
  {
    var v := Config.NormalizeVersion(version);
    if !Cache.IsCached(c, t, v) {
      DownloadDir(b, c, t, v, now, f);
      var made := Cache.EnsureVersionDir(t, v, now, f);
      if b == Corrected && made.error.None? {
        InstallIntoSpec(c, made.tree, Lookup(Entries(made.tree), v).value, net, wf, now);
      }
    }
  }

  /**
   * A failure of the checksum, of the extraction or of the final check
   * deletes the version's directory (when it can be deleted), so nothing
   * half-installed stays behind.
   */
  lemma DownloadCleansUp(b: Build, c: Config.Config, t: Tree, version: string, net: Network,
                         f: Faults, wf: WriteFaults, now: int)
    requires WellFormed(t)
    ensures var v := Config.NormalizeVersion(version); var r := Download(b, c, t, version, net, f, wf, now);
      r.error.Some? && LateError(r.error.value) && (Lookup(Entries(t), v).None? || Lookup(Entries(t), v).value.removable) ==>
        forall x :: x in Entries(r.tree) <==> x in Entries(t) && x.name != v
  {
    var v := Config.NormalizeVersion(version);
    if !Cache.IsCached(c, t, v) {
      DownloadDir(b, c, t, v, now, f);
      var made := Cache.EnsureVersionDir(t, v, now, f);
      if b == Corrected && made.error.None? {
        InstallIntoSpec(c, made.tree, Lookup(Entries(made.tree), v).value, net, wf, now);
      }
    }
  }

  /**
   * A failure to create the directory or to fetch the archive (and the
   * checksum panic) returns without deleting anything: after a failed fetch
   * the version's directory is still there.
   */
  lemma DownloadKeepsDirOnEarlyFailure(b: Build, c: Config.Config, t: Tree, version: string, net: Network,
                                       f: Faults, wf: WriteFaults, now: int)
    requires WellFormed(t)
    ensures var v := Config.NormalizeVersion(version); var r := Download(b, c, t, version, net, f, wf, now);
      && (r.error == Some(EnsureDirFailed) ==> r.tree == Config.EnsureVersionDir(t, v, now, f).tree)
      && (r.error.Some? && EarlyError(r.error.value) ==> exists x :: x in Entries(r.tree) && x.name == v && x.isDir)
  {
    var v := Config.NormalizeVersion(version);
    if !Cache.IsCached(c, t, v) {
      DownloadDir(b, c, t, v, now, f);
      var made := Cache.EnsureVersionDir(t, v, now, f);
      if b == Corrected && made.error.None? {
        InstallIntoSpec(c, made.tree, Lookup(Entries(made.tree), v).value, net, wf, now);
      }
    }
  }

  /**
   * As written, Download installs nothing: unless the version is already
   * cached it stops with the directory error. The tree is left as the
   * configuration's EnsureVersionDir leaves it (an existing directory kept
   * as it was, a missing one created empty, nothing changed when mkdir
   * fails), and the version is still not cached.
   */
  lemma DownloadAsWrittenNeverInstalls(c: Config.Config, t: Tree, version: string, net: Network,
                                       f: Faults, wf: WriteFaults, now: int)
    requires WellFormed(t)
    requires !Cache.IsCached(c, t, Config.NormalizeVersion(version))
    ensures var v := Config.NormalizeVersion(version); var r := Download(AsWritten, c, t, version, net, f, wf, now);
      && r.error == Some(EnsureDirFailed)
      && r.tree == Config.EnsureVersionDir(t, v, now, f).tree
      && !Cache.IsCached(c, r.tree, v)
  {
    var v := Config.NormalizeVersion(version);
    Config.EnsureVersionDirFinds(t, v, now, f);
    var s := Config.EnsureVersionDir(t, v, now, f);
    if s.error.None? && Lookup(Entries(t), v).None? {
      assert Config.StatBinary(c, s.tree, v).None?;
    }
  }

  /**
   * With the corrected EnsureVersionDir, Download does install: on a host
   * matching the configuration, a fresh directory, no write faults, an
   * archive fetched in full, a checksum that passes and an archive whose
   * selected entry is the platform's binary and can be read, the version
   * ends up cached.
   */
  lemma DownloadCorrectedInstalls(c: Config.Config, t: Tree, version: string, net: Network, now: int)
    requires WellFormed(t) && !t.versions.Unreadable? && t.hostOS == c.os
    requires Lookup(Entries(t), Config.NormalizeVersion(version)).None?
    requires net.archive.ArchiveResponse? && net.archive.status == StatusOK && net.archive.complete
    requires Passes(VerifyChecksum(net.checksum, net.hash))
    requires SelectBinary(net.contents).Ok?
    requires Config.Base(SelectBinary(net.contents).value.name) == Config.BinaryName(c.os)
    requires SelectBinary(net.contents).value.readable
    ensures var r := Download(Corrected, c, t, version, net, Faults(false, false), WriteFaults(false, false, false), now);
      r.error.None? && Cache.IsCached(c, r.tree, Config.NormalizeVersion(version))
  {
    var v := Config.NormalizeVersion(version);
    var f := Faults(false, false);
    assert !Cache.IsCached(c, t, v);
    DownloadDir(Corrected, c, t, v, now, f);
    var made := Cache.EnsureVersionDir(t, v, now, f);
    var e := Lookup(Entries(made.tree), v).value;
    assert e.files == map[];
    StepsSucceed(c, made.tree.hostOS, e.files, net, now);
    DownloadInstalls(Corrected, c, t, version, net, f, WriteFaults(false, false, false), now);
  }

  /** With a good archive, a passing checksum and a readable binary for the platform, and no write failing, the steps succeed. */
  lemma StepsSucceed(c: Config.Config, hostOS: string, files: map<string, FileInfo>, net: Network, now: int)
    requires hostOS == c.os && Config.BinaryName(c.os) !in files
    requires net.archive.ArchiveResponse? && net.archive.status == StatusOK && net.archive.complete
    requires Passes(VerifyChecksum(net.checksum, net.hash))
    requires SelectBinary(net.contents).Ok?
    requires Config.Base(SelectBinary(net.contents).value.name) == Config.BinaryName(c.os)
    requires SelectBinary(net.contents).value.readable
    ensures Steps(c, hostOS, files, net, WriteFaults(false, false, false), now).error.None?
  {
    var fetched := files[ArchiveName := FileInfo(true, false, net.archive.size, now)];
    var entry := SelectBinary(net.contents).value;
    var x := ExtractFile(c, fetched, entry, now, WriteFaults(false, false, false));
    var name := Config.BinaryName(c.os);
    assert name != ArchiveName;
    assert x.error.None? && name in x.files;
    var done := x.files - {ArchiveName};
    assert done[name] == x.files[name];
    ExtractedReady(c, fetched, entry, now);
    assert BinaryReady(c, hostOS, done);
  }

  /** Extracting the platform's binary without a failure leaves it regular and executable on that platform. */
  lemma ExtractedReady(c: Config.Config, files: map<string, FileInfo>, entry: TarEntry, now: int)
    requires Config.Base(entry.name) == Config.BinaryName(c.os) && entry.readable
    requires Config.BinaryName(c.os) !in files
    ensures var x := ExtractFile(c, files, entry, now, WriteFaults(false, false, false));
      && x.error.None?
      && BinaryReady(c, c.os, x.files)
  {
  }
}
