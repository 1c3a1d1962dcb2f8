/**
 * Configuration: where the cache lives, how versions and platforms are
 * spelled, the paths of each version's binary, and the activation pointer
 * (`current/golangci-lint`) that selects one installed version.
 */
module Config {
  import opened Wrappers
  import opened Text
  import opened Disk

  const AppName := "glint-vm"
  const VersionsDir := "versions"
  const CurrentDir := "current"
  const Windows := "windows"

  /** The cache directory and the target platform (operating system and architecture). */
  datatype Config = Config(cacheDir: string, os: string, arch: string)

  datatype ConfigError =
    | NoHomeDir
    | VersionNotInstalled(version: string)
    | CreateDirFailed
    | SymlinkFailed
    | ReadLinkFailed

  /** filepath.Join for two elements: empty elements are dropped. */
  function Join(a: string, b: string): string
  {
    if a == "" then b else if b == "" then a else a + "/" + b
  }

  /** Index of the last '/' in `p`, if any. */
  function LastSlash(p: string): (r: Option<nat>)
    ensures r.Some? ==> r.value < |p| && p[r.value] == '/'
                        && forall k :: r.value < k < |p| ==> p[k] != '/'
    ensures r.None? ==> forall k :: 0 <= k < |p| ==> p[k] != '/'
  {
    if |p| == 0 then None
    else if p[|p| - 1] == '/' then Some(|p| - 1)
    else LastSlash(p[..|p| - 1])
  }

  /** filepath.Dir: everything before the last separator ("." when there is none). */
  function Dir(p: string): string
  {
    match LastSlash(p)
    case None => "."
    case Some(i) => if i == 0 then "/" else p[..i]
  }

  /** filepath.Base: everything after the last separator ("." for the empty path). */
  function Base(p: string): string
  {
    if p == "" then "."
    else match LastSlash(p)
      case None => p
      case Some(i) => p[i + 1..]
  }

  /** A name that filepath.Join keeps as one path element. */
  predicate IsComponent(s: string) {
    s != "" && s != "." && s != ".." && '/' !in s
  }

  /** Dir and Base split a joined path back into its parts. */
  lemma DirBaseOfJoin(a: string, b: string)
    requires a != "" && IsComponent(b)
    ensures Dir(Join(a, b)) == a
    ensures Base(Join(a, b)) == b
  {
    var p := a + "/" + b;
    assert p[|a| + 1..] == b;
    assert forall k :: |a| < k < |p| ==> p[k] == b[k - |a| - 1];
    var i := LastSlash(p);
    assert p[|a|] == '/';
    assert i.Some? && i.value == |a|;
    assert p[..|a|] == a;
  }

  /**
   * The cache directory: $XDG_CACHE_HOME/glint-vm when that variable is set,
   * else $HOME/.cache/glint-vm; the environment is given as parameters
   * (`home` is None when the home directory cannot be determined).
   */
  function GetCacheDir(xdgCacheHome: string, home: Option<string>): (r: Result<string, ConfigError>)
    ensures r.Err? ==> r.error == NoHomeDir
    ensures xdgCacheHome != "" ==> r.Ok? && Dir(r.value) == xdgCacheHome && Base(r.value) == AppName
    ensures xdgCacheHome == "" ==> (r.Err? <==> home.None?)
    ensures xdgCacheHome == "" && home.Some? && home.value != "" ==>
              && Base(r.value) == AppName && Base(Dir(r.value)) == ".cache"
              && Dir(Dir(r.value)) == home.value
    ensures xdgCacheHome == "" && home == Some("") ==> Dir(r.value) == ".cache" && Base(r.value) == AppName
  {
    assert IsComponent(AppName) && IsComponent(".cache");
    if xdgCacheHome != "" then
      DirBaseOfJoin(xdgCacheHome, AppName);
      Ok(Join(xdgCacheHome, AppName))
    else match home
      case None => Err(NoHomeDir)
      case Some(h) =>
        CacheUnderHome(h);
        Ok(Join(Join(h, ".cache"), AppName))
  }

  /** The home fallback is `.cache/glint-vm` below the home directory. */
  lemma CacheUnderHome(h: string)
    ensures var p := Join(Join(h, ".cache"), AppName);
      && Dir(p) == Join(h, ".cache") && Base(p) == AppName
      && (h != "" ==> Base(Dir(p)) == ".cache" && Dir(Dir(p)) == h)
  {
    assert IsComponent(AppName) && IsComponent(".cache");
    DirBaseOfJoin(Join(h, ".cache"), AppName);
    if h != "" {
      DirBaseOfJoin(h, ".cache");
    }
  }

  /**
   * NormalizeVersion: prefixes 'v' unless the string is empty or already
   * starts with 'v'.
   */
  function NormalizeVersion(v: string): (r: string)
    ensures r == v || r == "v" + v
    ensures |r| == 0 <==> |v| == 0
    ensures |r| > 0 ==> r[0] == 'v'
    ensures |v| > 0 && v[0] == 'v' ==> r == v
  {
    if v == "" then "" else if v[0] != 'v' then "v" + v else v
  }

  /** Normalizing twice is normalizing once. */
  lemma NormalizeIdempotent(v: string)
    ensures NormalizeVersion(NormalizeVersion(v)) == NormalizeVersion(v)
  {
  }

  /** GetPlatformString: "<os>-<arch>". */
  function PlatformString(c: Config): string
  {
    c.os + "-" + c.arch
  }

  /** When the OS name has no '-', the platform string splits back into OS and architecture at its first '-'. */
  lemma PlatformStringSplits(c: Config)
    requires '-' !in c.os
    ensures var p := PlatformString(c);
            exists i :: 0 <= i < |p| && p[i] == '-' && (forall k :: 0 <= k < i ==> p[k] != '-')
                        && p[..i] == c.os && p[i + 1..] == c.arch
  {
    var p := PlatformString(c);
    var i := |c.os|;
    assert p[i] == '-';
    assert p[..i] == c.os;
    assert p[i + 1..] == c.arch;
    assert forall k :: 0 <= k < i ==> p[k] == c.os[k];
  }

  /** "golangci-lint", with ".exe" on Windows. */
  function BinaryName(os: string): (r: string)
    ensures IsComponent(r)
    ensures HasSuffix(r, ".exe") <==> os == Windows
  {
    var r := if os == Windows then "golangci-lint.exe" else "golangci-lint";
    assert IsComponent(r) by {
      assert forall k :: 0 <= k < |r| ==> r[k] != '/';
    }
    assert os != Windows ==> r[|r| - 4..] != ".exe" by {
      if os != Windows { assert r[|r| - 4] == 'l'; }
    }
    r
  }

  function GetVersionsDir(c: Config): string { Join(c.cacheDir, VersionsDir) }

  function GetVersionDir(c: Config, version: string): string { Join(GetVersionsDir(c), version) }

  function GetCurrentDir(c: Config): string { Join(c.cacheDir, CurrentDir) }

  /**
   * GetBinaryPath: CacheDir/versions/<version>/<binary name>; the directory
   * part names the version and the file part the platform's binary.
   */
  function GetBinaryPath(c: Config, version: string): (r: string)
    ensures IsComponent(version) ==> Base(Dir(r)) == version
    ensures Base(r) == BinaryName(c.os)
    ensures r == Join(GetVersionDir(c, version), BinaryName(c.os))
  {
    var r := Join(GetVersionDir(c, version), BinaryName(c.os));
    assert (IsComponent(version) ==> Base(Dir(r)) == version) && Base(r) == BinaryName(c.os) by {
      assert GetVersionsDir(c) != "";
      assert GetVersionDir(c, version) != "";
      DirBaseOfJoin(GetVersionDir(c, version), BinaryName(c.os));
      if IsComponent(version) {
        DirBaseOfJoin(GetVersionsDir(c), version);
      }
    }
    r
  }

  /** GetCurrentBinaryPath: CacheDir/current/<binary name>. */
  function GetCurrentBinaryPath(c: Config): (r: string)
    ensures Dir(r) == GetCurrentDir(c)
    ensures Base(r) == BinaryName(c.os)
  {
    assert GetCurrentDir(c) != "";
    DirBaseOfJoin(GetCurrentDir(c), BinaryName(c.os));
    Join(GetCurrentDir(c), BinaryName(c.os))
  }

  /** isExecutable: some execute bit, except on a Windows host where every regular file counts. */
  predicate IsExecutable(hostOS: string, info: FileInfo) {
    hostOS != Windows ==> info.execBits
  }

  /** The stat result for the binary of `version`, when its directory and file exist. */
  function StatBinary(c: Config, t: Tree, version: string): (r: Option<FileInfo>)
    ensures r.Some? ==> exists e :: e in Entries(t) && e.name == version && e.isDir
                                    && BinaryName(c.os) in e.files && e.files[BinaryName(c.os)] == r.value
  {
    match Lookup(Entries(t), version)
    case None => None
    case Some(e) =>
      if e.isDir && BinaryName(c.os) in e.files then Some(e.files[BinaryName(c.os)]) else None
  }

  /**
   * BinaryExists: the binary of `version` is a regular file and, unless the
   * host is Windows, carries an execute bit.
   */
  predicate BinaryExists(c: Config, t: Tree, version: string) {
    var info := StatBinary(c, t, version);
    info.Some? && info.value.regular && IsExecutable(t.hostOS, info.value)
  }

  /** BinaryExists holds exactly when a version directory holds a regular, executable binary for this platform. */
  lemma BinaryExistsMeaning(c: Config, t: Tree, version: string)
    requires WellFormed(t)
    ensures BinaryExists(c, t, version) <==>
      exists e :: e in Entries(t) && e.name == version && e.isDir && BinaryName(c.os) in e.files
                  && e.files[BinaryName(c.os)].regular
                  && (t.hostOS != Windows ==> e.files[BinaryName(c.os)].execBits)
  {
    if exists e :: e in Entries(t) && e.name == version && e.isDir && BinaryName(c.os) in e.files
                  && e.files[BinaryName(c.os)].regular
                  && (t.hostOS != Windows ==> e.files[BinaryName(c.os)].execBits) {
      var e :| e in Entries(t) && e.name == version && e.isDir && BinaryName(c.os) in e.files
                  && e.files[BinaryName(c.os)].regular
                  && (t.hostOS != Windows ==> e.files[BinaryName(c.os)].execBits);
      assert DistinctNames(Entries(t));
      LookupFinds(Entries(t), e);
    }
  }

  /** The outcome of an operation that changes the tree: the new tree and the error, if any. */
  datatype Step = Step(tree: Tree, error: Option<ConfigError>)

  /**
   * Config.EnsureVersionDir: os.MkdirAll of the version's directory. An
   * existing directory is kept as it is; a new one is empty and stamped with
   * the clock reading `now`. It fails when the OS refuses, when the versions
   * directory cannot be read, or when a non-directory already has the name.
   */
  function EnsureVersionDir(t: Tree, version: string, now: int, f: Faults): (r: Step)
    requires WellFormed(t)
    ensures WellFormed(r.tree)
    ensures r.error.None? ==> exists e :: e in Entries(r.tree) && e.name == version && e.isDir
    ensures r.error.Some? ==> r.tree == t
    ensures r.tree.hostOS == t.hostOS && r.tree.current == t.current
    ensures forall e :: e in Entries(t) ==> e in Entries(r.tree)
    ensures forall e :: e in Entries(r.tree) && e !in Entries(t) ==>
              e == VersionEntry(version, true, now, map[], true)
  {
    if f.mkdirFails || t.versions.Unreadable? then Step(t, Some(CreateDirFailed))
    else match Lookup(Entries(t), version)
      case Some(e) => if e.isDir then Step(t, None) else Step(t, Some(CreateDirFailed))
      case None =>
        var created := VersionEntry(version, true, now, map[], true);
        assert DistinctNames(Entries(t) + [created]) by {
          forall i, j | 0 <= i < j < |Entries(t) + [created]|
            ensures (Entries(t) + [created])[i].name != (Entries(t) + [created])[j].name
          {
            if j == |Entries(t)| {
              assert (Entries(t) + [created])[i] == Entries(t)[i];
            }
          }
        }
        Step(t.(versions := Listing(Entries(t) + [created])), None)
  }

  /** After a successful EnsureVersionDir, looking the version up finds its directory: the old one, or a fresh empty one. */
  lemma EnsureVersionDirFinds(t: Tree, version: string, now: int, f: Faults)
    requires WellFormed(t)
    ensures var r := EnsureVersionDir(t, version, now, f);
      r.error.None? ==>
        && Lookup(Entries(r.tree), version).Some? && Lookup(Entries(r.tree), version).value.isDir
        && (Lookup(Entries(t), version).Some? ==> Lookup(Entries(r.tree), version) == Lookup(Entries(t), version))
        && (Lookup(Entries(t), version).None? ==> Lookup(Entries(r.tree), version).value == VersionEntry(version, true, now, map[], true))
  {
    var r := EnsureVersionDir(t, version, now, f);
    if r.error.None? {
      match Lookup(Entries(t), version)
      case Some(e) =>
      case None =>
        var created := VersionEntry(version, true, now, map[], true);
        assert Entries(r.tree) == Entries(t) + [created];
        LookupFinds(Entries(r.tree), created);
    }
  }

  /**
   * SetCurrentVersion: refuses a version whose binary is missing; otherwise
   * creates the current directory, drops the old pointer and links the
   * platform's pointer to the version's binary.
   */
  function SetCurrentVersion(c: Config, t: Tree, version: string, f: Faults): (r: Step)
    ensures !BinaryExists(c, t, version) ==> r == Step(t, Some(VersionNotInstalled(version)))
    ensures r.error.None? ==> BinaryExists(c, t, version)
    ensures r.error.None? ==> r.tree.current == t.current[BinaryName(c.os) := Symlink(GetBinaryPath(c, version))]
    ensures r.tree.versions == t.versions && r.tree.hostOS == t.hostOS
    ensures forall n :: n in t.current && n != BinaryName(c.os) ==> n in r.tree.current && r.tree.current[n] == t.current[n]
  {
    if !BinaryExists(c, t, version) then Step(t, Some(VersionNotInstalled(version)))
    else if f.mkdirFails then Step(t, Some(CreateDirFailed))
    else
      var name := BinaryName(c.os);
      var cleared := t.(current := t.current - {name});
      if f.symlinkFails then Step(cleared, Some(SymlinkFailed))
      else Step(t.(current := cleared.current[name := Symlink(GetBinaryPath(c, version))]), None)
  }

  /**
   * GetCurrentVersion: "" when no pointer is set; otherwise the name of the
   * directory that holds the pointer's target.
   */
  function GetCurrentVersion(c: Config, t: Tree): (r: Result<string, ConfigError>)
    ensures BinaryName(c.os) !in t.current ==> r == Ok("")
    ensures r.Err? ==> BinaryName(c.os) in t.current && t.current[BinaryName(c.os)].NotLink?
  {
    var name := BinaryName(c.os);
    if name !in t.current then Ok("")
    else match t.current[name]
      case NotLink => Err(ReadLinkFailed)
      case Symlink(target) => Ok(Base(Dir(target)))
  }

  /**
   * Round trip of the activation pointer: after a successful
   * SetCurrentVersion of a single-component version, GetCurrentVersion
   * reports that version.
   */
  lemma SetThenGetCurrent(c: Config, t: Tree, version: string, f: Faults)
    requires IsComponent(version)
    requires SetCurrentVersion(c, t, version, f).error.None?
    ensures GetCurrentVersion(c, SetCurrentVersion(c, t, version, f).tree) == Ok(version)
  {
  }
}
