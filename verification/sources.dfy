/**
 * The six places a project records the golangci-lint version it wants, and
 * how they are searched in a fixed priority order.  The project directory
 * is an immutable map from relative paths to nodes; reading a path that is
 * not in the map is "does not exist", and every other failed read is an
 * error that the scanner reports.
 */
module Sources {
  import opened Wrappers
  import opened Text
  import Config
  import opened Patterns

  /** One entry of a directory listing. */
  datatype DirEntry = DirEntry(name: string, isDir: bool)

  /** A path in the project: a readable file, a directory (its listing, in name order), or something unreadable. */
  datatype Node = File(content: string) | Folder(listing: seq<DirEntry>) | Unreadable

  /** The project directory, keyed by paths relative to it. */
  type Workspace = map<string, Node>

  datatype FileRead = Missing | Content(text: string) | ReadFailed
  datatype DirRead = NoDir | Entries(entries: seq<DirEntry>) | ListFailed

  /** Reading a file: a missing path does not exist; a directory or an unreadable node is an error. */
  function ReadFile(ws: Workspace, rel: string): (r: FileRead)
    ensures r.Missing? <==> rel !in ws
    ensures r.Content? <==> rel in ws && ws[rel].File?
    ensures r.Content? ==> r.text == ws[rel].content
  {
    if rel !in ws then Missing
    else match ws[rel]
      case File(c) => Content(c)
      case _ => ReadFailed
  }

  /** Listing a directory: a missing path does not exist; a file or an unreadable node is an error. */
  function ReadDir(ws: Workspace, rel: string): (r: DirRead)
    ensures r.NoDir? <==> rel !in ws
    ensures r.Entries? <==> rel in ws && ws[rel].Folder?
    ensures r.Entries? ==> r.entries == ws[rel].listing
  {
    if rel !in ws then NoDir
    else match ws[rel]
      case Folder(es) => Entries(es)
      case _ => ListFailed
  }

  /** What a scanner reports when it finds a version. */
  datatype DetectionResult = DetectionResult(
    version: string,
    source: string,
    sourceType: string,
    lineNumber: nat,
    pattern: string)

  /** A read failure other than "does not exist", with the path that failed. */
  datatype DetectError = ReadError(path: string)

  type Outcome = Result<Option<DetectionResult>, DetectError>

  /** A detection result is well formed when it carries a valid version found on some line. */
  predicate Sound(r: DetectionResult) {
    r.lineNumber >= 1 && ValidateVersion(r.version)
  }

  const VersionFilePath := ".golangci-lint.version"
  const WorkflowsPath := ".github/workflows"
  const SemaphorePath := ".semaphore/semaphore.yml"
  const MakefileNames := ["Makefile", "makefile", "GNUmakefile"]
  const CircleCIPath := ".circleci/config.yml"
  const GitLabCIPath := ".gitlab-ci.yml"
  const PlainVersion := "plain-version"

  datatype Detector = VersionFile | GitHubActions | Semaphore | Makefile | CircleCI | GitLabCI
  {
    function Name(): string {
      match this
      case VersionFile => "version-file"
      case GitHubActions => "github-actions"
      case Semaphore => "semaphore-ci"
      case Makefile => "makefile"
      case CircleCI => "circleci"
      case GitLabCI => "gitlab-ci"
    }

    /** The first path the scanner reads. */
    function FirstPath(): string {
      match this
      case VersionFile => VersionFilePath
      case GitHubActions => WorkflowsPath
      case Semaphore => SemaphorePath
      case Makefile => MakefileNames[0]
      case CircleCI => CircleCIPath
      case GitLabCI => GitLabCIPath
    }

    /** Every path whose presence can make the scanner report something. */
    function Paths(): set<string> {
      match this
      case Makefile => set n | n in MakefileNames
      case _ => {FirstPath()}
    }
  }

  /** The scanners in priority order. */
  const AllDetectors: seq<Detector> := [VersionFile, GitHubActions, Semaphore, Makefile, CircleCI, GitLabCI]

  /** The detector names are distinct, so a result's source type tells which scanner produced it. */
  lemma DetectorNamesDistinct()
    ensures forall i, j :: 0 <= i < j < |AllDetectors| ==> AllDetectors[i].Name() != AllDetectors[j].Name()
  {
  }

  /** The result for a line match found in the file at `rel`. */
  function Found(d: Detector, base: string, rel: string, m: LineMatch): DetectionResult {
    DetectionResult(m.version, Config.Join(base, rel), d.Name(), m.line, m.patternName)
  }

  /**
   * `r` is what the line scan finds in `content`, the file at `rel` under
   * `base`: the version and pattern of the first line that yields one, and
   * that line's 1-based number.
   */
  predicate LineScanOf(r: DetectionResult, base: string, rel: string, content: string) {
    var m := ExtractVersionFromLines(content);
    && m.version != ""
    && r.source == Config.Join(base, rel)
    && r.version == m.version && r.pattern == m.patternName && r.lineNumber == m.line
  }

  /** `r` is the version file's plain-version fallback for `content`: the whole trimmed text, normalized, on line 1. */
  predicate PlainVersionOf(r: DetectionResult, base: string, content: string) {
    && r.source == Config.Join(base, VersionFilePath)
    && r.version == Config.NormalizeVersion(TrimSpace(content))
    && r.pattern == PlainVersion && r.lineNumber == 1
  }

  /** The line scan of one file's content: a result exactly when some line yields a version, and then that line's. */
  function ScanContent(d: Detector, base: string, rel: string, content: string): (r: Option<DetectionResult>)
    ensures r.None? <==> ExtractVersionFromLines(content).version == ""
    ensures r.Some? ==> LineScanOf(r.value, base, rel, content) && Sound(r.value) && r.value.sourceType == d.Name()
  {
    var m := ExtractVersionFromLines(content);
    if m.version == "" then None else Some(Found(d, base, rel, m))
  }

  /** The scanners that read a single file: missing means nothing found, a failed read is an error. */
  function ScanFile(d: Detector, ws: Workspace, base: string, rel: string): (r: Outcome)
    ensures rel !in ws ==> r == Ok(None)
    ensures rel in ws && !ws[rel].File? ==> r == Err(ReadError(Config.Join(base, rel)))
    ensures rel in ws && ws[rel].File? ==> r == Ok(ScanContent(d, base, rel, ws[rel].content))
  {
    match ReadFile(ws, rel)
    case Missing => Ok(None)
    case ReadFailed => Err(ReadError(Config.Join(base, rel)))
    case Content(c) => Ok(ScanContent(d, base, rel, c))
  }

  /**
   * The version-file scanner: the line scan first; when no line yields a
   * version, the whole trimmed content, normalized, is accepted if it is a
   * valid version, reported as "plain-version" on line 1.
   */
  function VersionFileDetect(ws: Workspace, base: string): (r: Outcome)
    ensures VersionFilePath !in ws ==> r == Ok(None)
    ensures VersionFilePath in ws && !ws[VersionFilePath].File? ==> r == Err(ReadError(Config.Join(base, VersionFilePath)))
    ensures VersionFilePath in ws && ws[VersionFilePath].File? ==>
              var c := ws[VersionFilePath].content;
              && r.Ok?
              && (ExtractVersionFromLines(c).version != "" ==>
                    r.value.Some? && LineScanOf(r.value.value, base, VersionFilePath, c))
              && (ExtractVersionFromLines(c).version == "" ==>
                    (r.value.Some? <==> ValidateVersion(Config.NormalizeVersion(TrimSpace(c))))
                    && (r.value.Some? ==> PlainVersionOf(r.value.value, base, c)))
    ensures r.Ok? && r.value.Some? ==> Sound(r.value.value) && r.value.value.sourceType == VersionFile.Name()
  {
    match ReadFile(ws, VersionFilePath)
    case Missing => Ok(None)
    case ReadFailed => Err(ReadError(Config.Join(base, VersionFilePath)))
    case Content(c) =>
      var m := ExtractVersionFromLines(c);
      if m.version != "" then Ok(Some(Found(VersionFile, base, VersionFilePath, m)))
      else
        var v := Config.NormalizeVersion(TrimSpace(c));
        if ValidateVersion(v) then
          Ok(Some(DetectionResult(v, Config.Join(base, VersionFilePath), VersionFile.Name(), 1, PlainVersion)))
        else Ok(None)
  }

  /** The version file's plain-version fallback: used exactly when no line matches and the trimmed content is a version. */
  lemma VersionFileFallback(ws: Workspace, base: string, c: string)
    requires VersionFilePath in ws && ws[VersionFilePath] == File(c)
    requires ExtractVersionFromLines(c).version == ""
    ensures VersionFileDetect(ws, base).Ok?
    ensures VersionFileDetect(ws, base).value.Some? <==> ValidateVersion(Config.NormalizeVersion(TrimSpace(c)))
    ensures VersionFileDetect(ws, base).value.Some? ==>
              var r := VersionFileDetect(ws, base).value.value;
              r.pattern == PlainVersion && r.lineNumber == 1 && Sound(r)
              && (r.version == TrimSpace(c) || r.version == "v" + TrimSpace(c))
  {
  }

  /** The extension of a file name: from its last '.' on, or "" when it has none. */
  function Ext(name: string): (r: string)
    ensures r == "" || (r[0] == '.' && HasSuffix(name, r) && forall k :: 1 <= k < |r| ==> r[k] != '.' && r[k] != '/')
    ensures r == "" ==> forall k :: 0 <= k < |name| && name[k] == '.' ==> exists j :: k < j < |name| && name[j] == '/'
    decreases |name|
  {
    if |name| == 0 || name[|name| - 1] == '/' then ""
    else if name[|name| - 1] == '.' then "."
    else
      var e := Ext(name[..|name| - 1]);
      if e == "" then ""
      else
        assert forall k :: 0 <= k < |name| - 1 ==> name[k] == name[..|name| - 1][k];
        e + [name[|name| - 1]]
  }

  /** A workflow entry is scanned when it is not a directory and ends in ".yml" or ".yaml". */
  predicate IsWorkflowFile(e: DirEntry) {
    !e.isDir && (Ext(e.name) == ".yml" || Ext(e.name) == ".yaml")
  }

  /** The path of a workflow entry, relative to the project. */
  function WorkflowPath(e: DirEntry): string {
    Config.Join(WorkflowsPath, e.name)
  }

  /**
   * What the workflow entry `e` yields: the line scan of a readable workflow
   * file; nothing for a directory, another extension, or a file that cannot
   * be read.
   */
  function ScanWorkflow(ws: Workspace, base: string, e: DirEntry): (r: Option<DetectionResult>)
    ensures IsWorkflowFile(e) && WorkflowPath(e) in ws && ws[WorkflowPath(e)].File? ==>
              r == ScanContent(GitHubActions, base, WorkflowPath(e), ws[WorkflowPath(e)].content)
    ensures !(IsWorkflowFile(e) && WorkflowPath(e) in ws && ws[WorkflowPath(e)].File?) ==> r.None?
    ensures r.Some? ==> Sound(r.value) && r.value.sourceType == GitHubActions.Name()
  {
    if !IsWorkflowFile(e) then None
    else
      match ReadFile(ws, WorkflowPath(e))
      case Content(c) => ScanContent(GitHubActions, base, WorkflowPath(e), c)
      case _ => None
  }

  /** What each entry of a workflow listing yields, in listing order. */
  function WorkflowScans(ws: Workspace, base: string, es: seq<DirEntry>): (rs: seq<Option<DetectionResult>>)
    ensures |rs| == |es|
    ensures forall k :: 0 <= k < |es| ==> rs[k] == ScanWorkflow(ws, base, es[k])
  {
    seq(|es|, k requires 0 <= k < |es| => ScanWorkflow(ws, base, es[k]))
  }

  /**
   * The GitHub Actions scanner: a missing workflows directory means nothing
   * found, an unlistable one is an error; otherwise the first entry in
   * listing order whose workflow yields a version wins.
   */
  function GitHubActionsDetect(ws: Workspace, base: string): (r: Outcome)
    ensures WorkflowsPath !in ws ==> r == Ok(None)
    ensures WorkflowsPath in ws && !ws[WorkflowsPath].Folder? ==> r == Err(ReadError(Config.Join(base, WorkflowsPath)))
    ensures WorkflowsPath in ws && ws[WorkflowsPath].Folder? ==>
              var es := ws[WorkflowsPath].listing;
              && r.Ok?
              && (r.value.None? <==> forall k :: 0 <= k < |es| ==> ScanWorkflow(ws, base, es[k]).None?)
              && (r.value.Some? ==> exists k :: 0 <= k < |es| && r.value == ScanWorkflow(ws, base, es[k])
                                               && forall j :: 0 <= j < k ==> ScanWorkflow(ws, base, es[j]).None?)
    ensures r.Ok? && r.value.Some? ==> Sound(r.value.value) && r.value.value.sourceType == GitHubActions.Name()
  {
    match ReadDir(ws, WorkflowsPath)
    case NoDir => Ok(None)
    case ListFailed => Err(ReadError(Config.Join(base, WorkflowsPath)))
    case Entries(es) =>
      var rs := WorkflowScans(ws, base, es);
      FirstSomeSpec(rs, 0);
      Ok(FirstSome(rs, 0))
  }

  /** The file at `rel` is passed over: it does not exist, or it is readable and no line yields a version. */
  predicate Skipped(ws: Workspace, rel: string) {
    rel !in ws || (ws[rel].File? && ExtractVersionFromLines(ws[rel].content).version == "")
  }

  /**
   * The first candidate from index `i` on that is not passed over: one that
   * exists and either cannot be read or yields a version; |names| if none.
   */
  function FirstDecisive(ws: Workspace, names: seq<string>, i: nat): (k: nat)
    requires i <= |names|
    ensures i <= k <= |names|
    ensures forall j :: i <= j < k ==> Skipped(ws, names[j])
    ensures k < |names| ==> !Skipped(ws, names[k])
    decreases |names| - i
  {
    if i == |names| || !Skipped(ws, names[i]) then i else FirstDecisive(ws, names, i + 1)
  }

  /**
   * The candidate files `names` from index `i` on, in order: a missing file
   * moves on, a failed read is an error, and the first file that yields a
   * version wins.  The Makefile scanner runs it over MakefileNames.
   */
  function ScanNames(ws: Workspace, base: string, names: seq<string>, i: nat): (r: Outcome)
    requires i <= |names|
    ensures r.Ok? && r.value.Some? ==> Sound(r.value.value) && r.value.value.sourceType == Makefile.Name()
    decreases |names| - i
  {
    if i == |names| then Ok(None)
    else
      var rel := names[i];
      match ReadFile(ws, rel)
      case Missing => ScanNames(ws, base, names, i + 1)
      case ReadFailed => Err(ReadError(Config.Join(base, rel)))
      case Content(c) =>
        var here := ScanContent(Makefile, base, rel, c);
        if here.Some? then Ok(here) else ScanNames(ws, base, names, i + 1)
  }

  /**
   * Scanning candidates is decided by the first one not passed over: none
   * means nothing found, a readable one gives its line scan (which finds a
   * version), and an unreadable one is an error naming it.
   */
  lemma {:induction false} ScanNamesSpec(ws: Workspace, base: string, names: seq<string>, i: nat)
    requires i <= |names|
    ensures var k := FirstDecisive(ws, names, i);
      ScanNames(ws, base, names, i) ==
        if k == |names| then Ok(None)
        else if ws[names[k]].File? then Ok(ScanContent(Makefile, base, names[k], ws[names[k]].content))
        else Err(ReadError(Config.Join(base, names[k])))
    ensures FirstDecisive(ws, names, i) < |names| && ws[names[FirstDecisive(ws, names, i)]].File? ==>
              ScanNames(ws, base, names, i).Ok? && ScanNames(ws, base, names, i).value.Some?
    decreases |names| - i
  {
    if i < |names| && Skipped(ws, names[i]) {
      ScanNamesSpec(ws, base, names, i + 1);
    }
  }

  /** The Makefile scanner: Makefile, then makefile, then GNUmakefile. */
  function ScanMakefiles(ws: Workspace, base: string): (r: Outcome)
    ensures r.Ok? && r.value.Some? ==> Sound(r.value.value) && r.value.value.sourceType == Makefile.Name()
  {
    ScanNames(ws, base, MakefileNames, 0)
  }

  /**
   * Detect: what scanner `d` reports for the project at `base`.  Any result
   * carries the scanner's name as its source type, a line number of at
   * least 1 and a valid version.
   */
  function Detect(d: Detector, ws: Workspace, base: string): (r: Outcome)
    ensures r.Ok? && r.value.Some? ==> Sound(r.value.value) && r.value.value.sourceType == d.Name()
  {
    match d
    case VersionFile => VersionFileDetect(ws, base)
    case GitHubActions => GitHubActionsDetect(ws, base)
    case Semaphore => ScanFile(Semaphore, ws, base, SemaphorePath)
    case Makefile => ScanMakefiles(ws, base)
    case CircleCI => ScanFile(CircleCI, ws, base, CircleCIPath)
    case GitLabCI => ScanFile(GitLabCI, ws, base, GitLabCIPath)
  }

  /**
   * A result traces back to the project when it is the line scan of a
   * readable file there, or the plain-version fallback of the version file;
   * for every scanner but the workflow one, that file is one of its paths.
   */
  predicate Traced(d: Detector, ws: Workspace, base: string, r: DetectionResult) {
    exists rel :: rel in ws && ws[rel].File?
                  && (d != GitHubActions ==> rel in d.Paths())
                  && (LineScanOf(r, base, rel, ws[rel].content)
                      || (d == VersionFile && PlainVersionOf(r, base, ws[rel].content)))
  }

  /** Whatever a scanner reports comes from the text of a file in the project. */
  lemma DetectTraced(d: Detector, ws: Workspace, base: string)
    ensures var r := Detect(d, ws, base);
      r.Ok? && r.value.Some? ==> Traced(d, ws, base, r.value.value)
  {
    match d
    case VersionFile => VersionFileTraced(ws, base);
    case GitHubActions => WorkflowTraced(ws, base);
    case Makefile => MakefileTraced(ws, base);
    case Semaphore => FileTraced(d, ws, base);
    case CircleCI => FileTraced(d, ws, base);
    case GitLabCI => FileTraced(d, ws, base);
  }

  lemma VersionFileTraced(ws: Workspace, base: string)
    ensures var r := VersionFileDetect(ws, base);
      r.Ok? && r.value.Some? ==> Traced(VersionFile, ws, base, r.value.value)
  {
    assert VersionFilePath in VersionFile.Paths();
  }

  lemma WorkflowTraced(ws: Workspace, base: string)
    ensures var r := GitHubActionsDetect(ws, base);
      r.Ok? && r.value.Some? ==> Traced(GitHubActions, ws, base, r.value.value)
  {
    var r := GitHubActionsDetect(ws, base);
    if r.Ok? && r.value.Some? {
      var es := ws[WorkflowsPath].listing;
      var k :| 0 <= k < |es| && r.value == ScanWorkflow(ws, base, es[k]);
      var rel := WorkflowPath(es[k]);
      assert LineScanOf(r.value.value, base, rel, ws[rel].content);
    }
  }

  lemma MakefileTraced(ws: Workspace, base: string)
    ensures var r := ScanMakefiles(ws, base);
      r.Ok? && r.value.Some? ==> Traced(Makefile, ws, base, r.value.value)
  {
    ScanNamesSpec(ws, base, MakefileNames, 0);
    var k := FirstDecisive(ws, MakefileNames, 0);
    if k < |MakefileNames| {
      assert MakefileNames[k] in Makefile.Paths();
    }
  }

  lemma FileTraced(d: Detector, ws: Workspace, base: string)
    requires d in {Semaphore, CircleCI, GitLabCI}
    ensures var r := ScanFile(d, ws, base, d.FirstPath());
      r.Ok? && r.value.Some? ==> Traced(d, ws, base, r.value.value)
  {
    assert d.FirstPath() in d.Paths();
  }

  /** A scanner none of whose paths exists reports nothing, and no error. */
  lemma AbsentIsNotAnError(d: Detector, ws: Workspace, base: string)
    requires forall p :: p in d.Paths() ==> p !in ws
    ensures Detect(d, ws, base) == Ok(None)
  {
    if d == Makefile {
      assert MakefileNames[0] in d.Paths() && MakefileNames[1] in d.Paths() && MakefileNames[2] in d.Paths();
    }
  }

  /** A scanner whose first path exists but cannot be read reports an error naming that path. */
  lemma UnreadableIsAnError(d: Detector, ws: Workspace, base: string)
    requires d.FirstPath() in ws && ws[d.FirstPath()] == Unreadable
    ensures Detect(d, ws, base) == Err(ReadError(Config.Join(base, d.FirstPath())))
  {
  }

  /** The Makefile scanner moves past a missing or non-matching Makefile to the next name. */
  lemma MakefileFallsThrough(ws: Workspace, base: string, i: nat)
    requires i < |MakefileNames|
    requires MakefileNames[i] !in ws
             || (ws[MakefileNames[i]].File? && ExtractVersionFromLines(ws[MakefileNames[i]].content).version == "")
    ensures ScanNames(ws, base, MakefileNames, i) == ScanNames(ws, base, MakefileNames, i + 1)
  {
  }

  // ---------------------------------------------------------------------
  // Running every scanner
  // ---------------------------------------------------------------------

  /** Every scanner's outcome, in priority order. */
  function Outcomes(ws: Workspace, base: string): (os: seq<Outcome>)
    ensures |os| == |AllDetectors|
    ensures forall k :: 0 <= k < |os| ==> os[k] == Detect(AllDetectors[k], ws, base)
  {
    seq(|AllDetectors|, k requires 0 <= k < |AllDetectors| => Detect(AllDetectors[k], ws, base))
  }

  predicate IsFound(o: Outcome) { o.Ok? && o.value.Some? }

  /** The first outcome from `k` on that found something; errors are skipped like empty results. */
  function FirstFound(os: seq<Outcome>, k: nat): (r: Option<DetectionResult>)
    requires k <= |os|
    ensures r.None? <==> forall j :: k <= j < |os| ==> !IsFound(os[j])
    ensures r.Some? ==> exists j :: k <= j < |os| && os[j] == Ok(r)
                                    && forall i :: k <= i < j ==> !IsFound(os[i])
    decreases |os| - k
  {
    if k == |os| then None
    else if IsFound(os[k]) then os[k].value
    else FirstFound(os, k + 1)
  }

  /** Every found result from `k` on, in order. */
  function CollectFound(os: seq<Outcome>, k: nat): (r: seq<DetectionResult>)
    requires k <= |os|
    ensures |r| <= |os| - k
    decreases |os| - k
  {
    if k == |os| then []
    else if IsFound(os[k]) then [os[k].value.value] + CollectFound(os, k + 1)
    else CollectFound(os, k + 1)
  }

  /**
   * `idx` gives, for each result of `r`, the position from `k` on of the
   * outcome it came from; the positions strictly increase.
   */
  predicate Positions(os: seq<Outcome>, k: nat, r: seq<DetectionResult>, idx: seq<nat>) {
    && |idx| == |r|
    && (forall i :: 0 <= i < |r| ==> k <= idx[i] < |os| && os[idx[i]] == Ok(Some(r[i])))
    && (forall i, j :: 0 <= i < j < |r| ==> idx[i] < idx[j])
  }

  /** Every position from `k` on whose outcome found something is among `idx`. */
  predicate Covers(os: seq<Outcome>, k: nat, idx: seq<nat>) {
    forall j: nat :: k <= j < |os| && IsFound(os[j]) ==> j in idx
  }

  /** CollectFound keeps exactly the found results, in order, and starts with FirstFound's. */
  lemma CollectFoundSpec(os: seq<Outcome>, k: nat)
    requires k <= |os|
    ensures var r := CollectFound(os, k);
      && (exists idx :: Positions(os, k, r, idx) && Covers(os, k, idx))
      && (forall j :: k <= j < |os| && IsFound(os[j]) ==> os[j].value.value in r)
      && (r == [] <==> FirstFound(os, k).None?)
      && (r != [] ==> FirstFound(os, k) == Some(r[0]))
  {
    CollectFoundOrder(os, k);
    CollectFoundMembers(os, k);
  }

  /** Every found result is collected; the collection is empty iff nothing is found, and starts with the first found. */
  lemma {:induction false} CollectFoundMembers(os: seq<Outcome>, k: nat)
    requires k <= |os|
    ensures var r := CollectFound(os, k);
      && (forall j :: k <= j < |os| && IsFound(os[j]) ==> os[j].value.value in r)
      && (r == [] <==> FirstFound(os, k).None?)
      && (r != [] ==> FirstFound(os, k) == Some(r[0]))
    decreases |os| - k
  {
    if k < |os| {
      CollectFoundMembers(os, k + 1);
    }
  }

  /**
   * The results CollectFound keeps come from strictly increasing positions,
   * and every position that found something contributes one.
   */
  lemma {:induction false} CollectFoundOrder(os: seq<Outcome>, k: nat)
    requires k <= |os|
    ensures exists idx :: Positions(os, k, CollectFound(os, k), idx) && Covers(os, k, idx)
    decreases |os| - k
  {
    if k == |os| {
      var none: seq<nat> := [];
      assert Positions(os, k, CollectFound(os, k), none) && Covers(os, k, none);
    } else {
      CollectFoundOrder(os, k + 1);
      var rest := CollectFound(os, k + 1);
      var idx' :| Positions(os, k + 1, rest, idx') && Covers(os, k + 1, idx');
      if IsFound(os[k]) {
        PositionsCons(os, k, os[k].value.value, rest, idx');
        CoversCons(os, k, idx');
        assert CollectFound(os, k) == [os[k].value.value] + rest;
        assert Positions(os, k, CollectFound(os, k), [k] + idx') && Covers(os, k, [k] + idx');
      } else {
        assert CollectFound(os, k) == rest;
        assert Positions(os, k, rest, idx');
        assert Covers(os, k, idx');
      }
    }
  }

  /** A found outcome at `k` in front of results from later positions. */
  lemma PositionsCons(os: seq<Outcome>, k: nat, x: DetectionResult, rest: seq<DetectionResult>, idx: seq<nat>)
    requires k < |os| && os[k] == Ok(Some(x)) && Positions(os, k + 1, rest, idx)
    ensures Positions(os, k, [x] + rest, [k] + idx)
  {
    var r := [x] + rest;
    var idx' := [k] + idx;
    forall i | 0 <= i < |r| ensures k <= idx'[i] < |os| && os[idx'[i]] == Ok(Some(r[i])) {
      if i > 0 {
        assert r[i] == rest[i - 1] && idx'[i] == idx[i - 1];
      }
    }
    forall i, j | 0 <= i < j < |r| ensures idx'[i] < idx'[j] {
      assert idx'[j] == idx[j - 1];
      if i > 0 { assert idx'[i] == idx[i - 1]; }
    }
  }

  /** Putting position `k` in front covers it as well. */
  lemma CoversCons(os: seq<Outcome>, k: nat, idx: seq<nat>)
    requires Covers(os, k + 1, idx)
    ensures Covers(os, k, [k] + idx)
  {
    forall j: nat | k < j < |os| && IsFound(os[j]) ensures j in [k] + idx {
      assert j in idx;
    }
  }

  /**
   * DetectVersion: the result of the first scanner in priority order that
   * finds a version; scanner errors are skipped, and it never fails.
   */
  function DetectVersion(ws: Workspace, base: string): (r: Option<DetectionResult>)
    ensures r.Some? ==> Sound(r.value)
  {
    var os := Outcomes(ws, base);
    var r := FirstFound(os, 0);
    assert r.Some? ==> Sound(r.value) by {
      if r.Some? {
        var j :| 0 <= j < |os| && os[j] == Ok(r);
      }
    }
    r
  }

  /** DetectVersion reports scanner `k` exactly when it finds something and no scanner before it does. */
  lemma DetectVersionPriority(ws: Workspace, base: string, k: nat)
    requires k < |AllDetectors|
    requires IsFound(Detect(AllDetectors[k], ws, base))
    ensures DetectVersion(ws, base) == Detect(AllDetectors[k], ws, base).value
            <== forall i :: 0 <= i < k ==> !IsFound(Detect(AllDetectors[i], ws, base))
    ensures DetectVersion(ws, base).Some?
  {
    var os := Outcomes(ws, base);
    if forall i :: 0 <= i < k ==> !IsFound(Detect(AllDetectors[i], ws, base)) {
      var r := FirstFound(os, 0);
      var j :| 0 <= j < |os| && os[j] == Ok(r) && forall i :: 0 <= i < j ==> !IsFound(os[i]);
      assert j == k;
    }
  }

  /** The version file outranks every other source. */
  lemma VersionFileWins(ws: Workspace, base: string)
    requires IsFound(Detect(VersionFile, ws, base))
    ensures DetectVersion(ws, base) == Detect(VersionFile, ws, base).value
  {
    DetectVersionPriority(ws, base, 0);
  }

  /**
   * `r` holds results of the scanners at the strictly increasing priority
   * positions `idx`, each with its scanner's name as source type.
   */
  predicate ByPriority(ws: Workspace, base: string, r: seq<DetectionResult>, idx: seq<nat>) {
    && |idx| == |r|
    && (forall i :: 0 <= i < |r| ==> idx[i] < |AllDetectors| && Detect(AllDetectors[idx[i]], ws, base) == Ok(Some(r[i]))
                                      && r[i].sourceType == AllDetectors[idx[i]].Name())
    && (forall i, j :: 0 <= i < j < |r| ==> idx[i] < idx[j])
  }

  /**
   * DetectVersionFromAll: every scanner's result, in priority order; at most
   * one per scanner, each well formed, with source types in priority order.
   */
  function DetectVersionFromAll(ws: Workspace, base: string): (r: seq<DetectionResult>)
    ensures |r| <= |AllDetectors|
    ensures forall i :: 0 <= i < |r| ==> Sound(r[i])
    ensures exists idx :: ByPriority(ws, base, r, idx)
    ensures forall i, j :: 0 <= i < j < |r| ==> r[i].sourceType != r[j].sourceType
  {
    var os := Outcomes(ws, base);
    var r := CollectFound(os, 0);
    assert && (forall i :: 0 <= i < |r| ==> Sound(r[i]))
           && (exists idx :: ByPriority(ws, base, r, idx))
           && (forall i, j :: 0 <= i < j < |r| ==> r[i].sourceType != r[j].sourceType) by {
      CollectFoundOrder(os, 0);
      var idx :| Positions(os, 0, r, idx);
      PositionsByPriority(ws, base, r, idx);
      PriorityDistinct(ws, base, r, idx);
    }
    r
  }

  /** Positions among the scanners' outcomes are priority positions. */
  lemma PositionsByPriority(ws: Workspace, base: string, r: seq<DetectionResult>, idx: seq<nat>)
    requires Positions(Outcomes(ws, base), 0, r, idx)
    ensures ByPriority(ws, base, r, idx)
    ensures forall i :: 0 <= i < |r| ==> Sound(r[i])
  {
    var os := Outcomes(ws, base);
    forall i | 0 <= i < |r| ensures r[i].sourceType == AllDetectors[idx[i]].Name() {
      assert os[idx[i]] == Detect(AllDetectors[idx[i]], ws, base);
    }
  }

  /** Results from distinct scanners have distinct source types. */
  lemma PriorityDistinct(ws: Workspace, base: string, r: seq<DetectionResult>, idx: seq<nat>)
    requires ByPriority(ws, base, r, idx)
    ensures forall i, j :: 0 <= i < j < |r| ==> r[i].sourceType != r[j].sourceType
  {
    DetectorNamesDistinct();
    forall i, j | 0 <= i < j < |r| ensures r[i].sourceType != r[j].sourceType {
      assert idx[i] < idx[j];
    }
  }

  /**
   * DetectVersionFromAll holds every scanner's result, one per scanner in
   * priority order, and is empty exactly when DetectVersion finds nothing,
   * otherwise starting with its result.
   */
  lemma DetectVersionFromAllSpec(ws: Workspace, base: string)
    ensures var r := DetectVersionFromAll(ws, base);
      && (forall d :: d in AllDetectors && IsFound(Detect(d, ws, base)) ==> Detect(d, ws, base).value.value in r)
      && (exists idx :: ByPriority(ws, base, r, idx))
      && (forall i, j :: 0 <= i < j < |r| ==> r[i].sourceType != r[j].sourceType)
      && (r == [] <==> DetectVersion(ws, base).None?)
      && (r != [] ==> DetectVersion(ws, base) == Some(r[0]))
  {
    var os := Outcomes(ws, base);
    CollectFoundMembers(os, 0);
    var r := DetectVersionFromAll(ws, base);
    forall d | d in AllDetectors && IsFound(Detect(d, ws, base)) ensures Detect(d, ws, base).value.value in r {
      var j :| 0 <= j < |AllDetectors| && AllDetectors[j] == d;
      assert os[j] == Detect(d, ws, base);
    }
  }

  /** An empty project yields no result from any scanner. */
  lemma EmptyProject(base: string)
    ensures DetectVersionFromAll(map[], base) == []
    ensures DetectVersion(map[], base) == None
  {
    forall d | d in AllDetectors ensures Detect(d, map[], base) == Ok(None) {
      AbsentIsNotAnError(d, map[], base);
    }
    DetectVersionFromAllSpec(map[], base);
    var os := Outcomes(map[], base);
    assert forall j :: 0 <= j < |os| ==> !IsFound(os[j]) by {
      forall j | 0 <= j < |os| ensures !IsFound(os[j]) {
        assert AllDetectors[j] in AllDetectors;
      }
    }
  }
}
