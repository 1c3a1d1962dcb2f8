/**
 * The version-extraction patterns: eleven named recognisers in a fixed
 * priority order, each returning the normalized version its first capture
 * group holds, and the three ways the detectors combine them (first pattern
 * wins, every distinct version, first matching line wins).
 *
 * Each recogniser is written out by hand from its regular expression, with
 * Go's regexp conventions: leftmost match, `\d` = ASCII digits,
 * `\s` = [\t\n\f\r ], `.` never matches a newline, `$` only at the end of
 * the text. Every greedy repetition in these expressions is followed by a
 * character it cannot consume, so each match is found without backtracking;
 * the lazy `.*?` of three patterns becomes a search for the first position
 * on the same line where the rest of the expression matches.
 */
module Patterns {
  import opened Wrappers
  import opened Text
  import Config

  // ---------------------------------------------------------------------
  // Version tokens
  // ---------------------------------------------------------------------

  /** `s` is `\d+\.\d+\.\d+` and nothing else. */
  ghost predicate IsTriple(s: string) {
    exists a, b, c :: a != "" && b != "" && c != "" && AllDigits(a) && AllDigits(b) && AllDigits(c)
                      && s == a + "." + b + "." + c
  }

  /** `s` is what the capture group `v?\d+\.\d+\.\d+` can hold. */
  ghost predicate IsCapture(s: string) {
    IsTriple(s) || (|s| > 0 && s[0] == 'v' && IsTriple(s[1..]))
  }

  /** End of the maximal run of ASCII digits starting at `i`. */
  function DigitRunEnd(s: string, i: nat): (j: nat)
    requires i <= |s|
    ensures i <= j <= |s|
    ensures forall k :: i <= k < j ==> IsDigit(s[k])
    ensures j == |s| || !IsDigit(s[j])
    decreases |s| - i
  {
    if i < |s| && IsDigit(s[i]) then DigitRunEnd(s, i + 1) else i
  }

  /** A digit run that is followed by a non-digit is the maximal run. */
  lemma {:induction false} DigitRunEndUnique(s: string, i: nat, j: nat)
    requires i <= j <= |s|
    requires forall k :: i <= k < j ==> IsDigit(s[k])
    requires j == |s| || !IsDigit(s[j])
    ensures DigitRunEnd(s, i) == j
    decreases j - i
  {
    if i < j {
      DigitRunEndUnique(s, i + 1, j);
    }
  }

  /** Where `\d+\.\d+\.\d+` matching at `i` ends. */
  function TripleEnd(s: string, i: nat): (r: Option<nat>)
    requires i <= |s|
    ensures r.Some? ==> i < r.value <= |s| && IsTriple(s[i..r.value])
    ensures r.Some? ==> r.value == |s| || !IsDigit(s[r.value])
  {
    var j1 := DigitRunEnd(s, i);
    if j1 == i || j1 == |s| || s[j1] != '.' then None
    else
      var j2 := DigitRunEnd(s, j1 + 1);
      if j2 == j1 + 1 || j2 == |s| || s[j2] != '.' then None
      else
        var j3 := DigitRunEnd(s, j2 + 1);
        if j3 == j2 + 1 then None
        else
          assert IsTriple(s[i..j3]) by {
            var a, b, c := s[i..j1], s[j1 + 1..j2], s[j2 + 1..j3];
            assert AllDigits(a) && AllDigits(b) && AllDigits(c);
            assert s[i..j3] == a + "." + b + "." + c;
          }
          Some(j3)
  }

  /** Every character of a triple is a digit or a dot, and the first is a digit. */
  lemma TripleChars(s: string)
    requires IsTriple(s)
    ensures |s| > 0 && IsDigit(s[0])
    ensures forall k :: 0 <= k < |s| ==> IsDigit(s[k]) || s[k] == '.'
  {
    var a, b, c :| a != "" && b != "" && c != "" && AllDigits(a) && AllDigits(b) && AllDigits(c)
                   && s == a + "." + b + "." + c;
    assert s[0] == a[0];
    forall k | 0 <= k < |s| ensures IsDigit(s[k]) || s[k] == '.' {
      if k < |a| { assert s[k] == a[k]; }
      else if k == |a| { }
      else if k < |a| + 1 + |b| { assert s[k] == b[k - |a| - 1]; }
      else if k == |a| + 1 + |b| { }
      else { assert s[k] == c[k - |a| - |b| - 2]; }
    }
  }

  /** The two dots of a triple, with digits everywhere else. */
  lemma TripleSplit(t: string) returns (i1: nat, i2: nat)
    requires IsTriple(t)
    ensures 0 < i1 && i1 + 1 < i2 && i2 + 1 < |t|
    ensures t[i1] == '.' && t[i2] == '.'
    ensures forall k :: 0 <= k < i1 ==> IsDigit(t[k])
    ensures forall k :: i1 < k < i2 ==> IsDigit(t[k])
    ensures forall k :: i2 < k < |t| ==> IsDigit(t[k])
  {
    var a, b, c :| a != "" && b != "" && c != "" && AllDigits(a) && AllDigits(b) && AllDigits(c)
                   && t == a + "." + b + "." + c;
    i1 := |a|;
    i2 := |a| + 1 + |b|;
    forall k | 0 <= k < i1 ensures IsDigit(t[k]) { assert t[k] == a[k]; }
    forall k | i1 < k < i2 ensures IsDigit(t[k]) { assert t[k] == b[k - i1 - 1]; }
    forall k | i2 < k < |t| ensures IsDigit(t[k]) { assert t[k] == c[k - i2 - 1]; }
  }

  /** A triple that ends where the digits end is exactly what TripleEnd finds. */
  lemma TripleEndComplete(s: string, i: nat, e: nat)
    requires i <= e <= |s|
    requires IsTriple(s[i..e])
    requires e == |s| || !IsDigit(s[e])
    ensures TripleEnd(s, i) == Some(e)
  {
    var t := s[i..e];
    var i1, i2 := TripleSplit(t);
    forall k | i <= k < i + i1 ensures IsDigit(s[k]) { assert s[k] == t[k - i]; }
    forall k | i + i1 < k < i + i2 ensures IsDigit(s[k]) { assert s[k] == t[k - i]; }
    forall k | i + i2 < k < e ensures IsDigit(s[k]) { assert s[k] == t[k - i]; }
    assert s[i + i1] == t[i1] && s[i + i2] == t[i2];
    TripleEndAt(s, i, i + i1, i + i2, e);
  }

  /** Digits from `i`, a dot at `a`, digits, a dot at `b`, digits up to `e` and no digit at `e`: TripleEnd ends at `e`. */
  lemma TripleEndAt(s: string, i: nat, a: nat, b: nat, e: nat)
    requires i < a && a + 1 < b && b + 1 < e <= |s|
    requires s[a] == '.' && s[b] == '.'
    requires forall k :: i <= k < a ==> IsDigit(s[k])
    requires forall k :: a < k < b ==> IsDigit(s[k])
    requires forall k :: b < k < e ==> IsDigit(s[k])
    requires e == |s| || !IsDigit(s[e])
    ensures TripleEnd(s, i) == Some(e)
  {
    DigitRunEndUnique(s, i, a);
    DigitRunEndUnique(s, a + 1, b);
    DigitRunEndUnique(s, b + 1, e);
  }

  /** A triple ends at the end of `s` exactly when the rest of `s` is a triple. */
  lemma TripleEndWhole(s: string, i: nat)
    requires i <= |s|
    ensures TripleEnd(s, i) == Some(|s|) <==> IsTriple(s[i..])
  {
    if IsTriple(s[i..]) {
      TripleEndComplete(s, i, |s|);
    }
  }

  /**
   * ValidateVersion: `^v\d+\.\d+\.\d+$`, a 'v' and three dot-separated runs
   * of ASCII digits with nothing before or after.
   */
  predicate ValidateVersion(v: string) {
    |v| > 0 && v[0] == 'v' && TripleEnd(v, 1) == Some(|v|)
  }

  /** ValidateVersion accepts exactly 'v' followed by a triple. */
  lemma ValidateVersionMeaning(v: string)
    ensures ValidateVersion(v) <==> |v| > 0 && v[0] == 'v' && IsTriple(v[1..])
  {
    if |v| > 0 && v[0] == 'v' && IsTriple(v[1..]) {
      TripleEndComplete(v, 1, |v|);
    }
  }

  /** Rejected by ValidateVersion: the empty string, a missing 'v', two components, a pre-release suffix. */
  lemma ValidateVersionRejects()
    ensures !ValidateVersion("")
    ensures !ValidateVersion("1.55.2")
    ensures !ValidateVersion("v1.55")
    ensures !ValidateVersion("v1.55.2-alpha")
    ensures ValidateVersion("v1.55.2")
  {
    RejectsBare();
    RejectsTwoParts();
    RejectsSuffix();
    AcceptsPlain();
  }

  /** A version without its leading 'v' is rejected. */
  lemma RejectsBare()
    ensures !ValidateVersion("1.55.2")
  {
    assert "1.55.2"[0] == '1';
  }

  /** A version with two components is rejected. */
  lemma RejectsTwoParts()
    ensures !ValidateVersion("v1.55")
  {
    var v := "v1.55";
    assert DigitRunEnd(v, 1) == 2 && v[2] == '.';
    assert DigitRunEnd(v, 3) == 5;
  }

  /** A version with a pre-release suffix is rejected. */
  lemma RejectsSuffix()
    ensures !ValidateVersion("v1.55.2-alpha")
  {
    var v := "v1.55.2-alpha";
    assert DigitRunEnd(v, 1) == 2 && v[2] == '.';
    assert DigitRunEnd(v, 3) == 5 && v[5] == '.';
    assert DigitRunEnd(v, 6) == 7 && 7 != |v|;
  }

  /** A plain three-component version is accepted. */
  lemma AcceptsPlain()
    ensures ValidateVersion("v1.55.2")
  {
    TripleWitness("1", "55", "2");
    assert "v1.55.2"[1..] == "1" + "." + "55" + "." + "2";
    ValidateVersionMeaning("v1.55.2");
  }

  lemma TripleWitness(a: string, b: string, c: string)
    requires a != "" && b != "" && c != "" && AllDigits(a) && AllDigits(b) && AllDigits(c)
    ensures IsTriple(a + "." + b + "." + c)
  {
  }

  /** Where `v?\d+\.\d+\.\d+` matching at `i` ends; the 'v' is taken whenever present. */
  function VersionEnd(s: string, i: nat): (r: Option<nat>)
    requires i <= |s|
    ensures r.Some? ==> i < r.value <= |s| && IsCapture(s[i..r.value])
  {
    if i < |s| && s[i] == 'v' then
      var r := TripleEnd(s, i + 1);
      assert r.Some? ==> s[i..r.value][1..] == s[i + 1..r.value];
      r
    else TripleEnd(s, i)
  }

  /** The text of the group `(v?\d+\.\d+\.\d+)` when it matches at `i`. */
  function VersionGroup(s: string, i: nat): (r: Option<string>)
    requires i <= |s|
    ensures r.Some? ==> IsCapture(r.value)
  {
    match VersionEnd(s, i)
    case None => None
    case Some(e) => Some(s[i..e])
  }

  /** `['"]?(v?\d+\.\d+\.\d+)` at `i`. */
  function QuotedVersionGroup(s: string, i: nat): (r: Option<string>)
    requires i <= |s|
    ensures r.Some? ==> IsCapture(r.value)
  {
    if i < |s| && (s[i] == '\'' || s[i] == '"') then VersionGroup(s, i + 1) else VersionGroup(s, i)
  }

  /** End of the maximal run of `\s` characters starting at `i`. */
  function SpaceRunEnd(s: string, i: nat): (j: nat)
    requires i <= |s|
    ensures i <= j <= |s|
    ensures forall k :: i <= k < j ==> IsRegexSpace(s[k])
    ensures j == |s| || !IsRegexSpace(s[j])
    decreases |s| - i
  {
    if i < |s| && IsRegexSpace(s[i]) then SpaceRunEnd(s, i + 1) else i
  }

  /** End of the maximal run of `[=:\s]` characters starting at `i`. */
  function AssignRunEnd(s: string, i: nat): (j: nat)
    requires i <= |s|
    ensures i <= j <= |s|
    decreases |s| - i
  {
    if i < |s| && (s[i] == '=' || s[i] == ':' || IsRegexSpace(s[i])) then AssignRunEnd(s, i + 1) else i
  }

  /** `s` from index `i` on is nothing but `\s` characters. */
  predicate OnlySpaceFrom(s: string, i: nat)
    requires i <= |s|
  {
    forall k :: i <= k < |s| ==> IsRegexSpace(s[k])
  }

  // ---------------------------------------------------------------------
  // The pattern table
  // ---------------------------------------------------------------------

  /** The eleven version patterns. */
  datatype Pattern =
    | EnvVersion          // GOLANGCI_LINT_VERSION[=:\s]+['"]?(v?\d+\.\d+\.\d+)['"]?
    | MakefileAssign      // GOLANGCI_LINT_VERSION\s*:?=\s*['"]?(v?\d+\.\d+\.\d+)['"]?
    | InstallVersion      // install-version:\s*['"]?(v?\d+\.\d+\.\d+)['"]?
    | ActionVersion       // golangci-lint-action@v\d+.*?version:\s*['"]?(v?\d+\.\d+\.\d+)['"]?
    | DockerImage         // golangci/golangci-lint:(v?\d+\.\d+\.\d+)
    | AtVersion           // golangci-lint@(v?\d+\.\d+\.\d+)
    | YamlVersion         // version:\s*['"]?(v?\d+\.\d+\.\d+)['"]?
    | AltEnv              // GOLANGCI_VERSION[=:\s]+['"]?(v?\d+\.\d+\.\d+)['"]?
    | CliVersion          // golangci-lint.*?--version\s+(v?\d+\.\d+\.\d+)
    | ShellScriptVersion  // install\.sh.*?\s+(v?\d+\.\d+\.\d+)\s*$
    | Filename            // golangci-lint-v?(\d+\.\d+\.\d+)
  {
    function Name(): (n: string)
      ensures n != ""
    {
      match this
      case EnvVersion => "env-version"
      case MakefileAssign => "makefile-assign"
      case InstallVersion => "install-version"
      case ActionVersion => "action-version"
      case DockerImage => "docker-image"
      case AtVersion => "at-version"
      case YamlVersion => "yaml-version"
      case AltEnv => "alt-env"
      case CliVersion => "cli-version"
      case ShellScriptVersion => "shell-script-version"
      case Filename => "filename"
    }
  }

  /** AllPatterns: the priority order, most explicit first. */
  const AllPatterns: seq<Pattern> := [
    EnvVersion, MakefileAssign, InstallVersion, ActionVersion, DockerImage, AtVersion,
    YamlVersion, AltEnv, CliVersion, ShellScriptVersion, Filename
  ]

  /** The table lists every pattern exactly once, under distinct names. */
  lemma AllPatternsTable()
    ensures |AllPatterns| == 11
    ensures forall p: Pattern :: p in AllPatterns
    ensures forall i, j :: 0 <= i < j < |AllPatterns| ==> AllPatterns[i].Name() != AllPatterns[j].Name()
  {
    forall p: Pattern ensures p in AllPatterns {
      match p
      case EnvVersion => assert AllPatterns[0] == p;
      case MakefileAssign => assert AllPatterns[1] == p;
      case InstallVersion => assert AllPatterns[2] == p;
      case ActionVersion => assert AllPatterns[3] == p;
      case DockerImage => assert AllPatterns[4] == p;
      case AtVersion => assert AllPatterns[5] == p;
      case YamlVersion => assert AllPatterns[6] == p;
      case AltEnv => assert AllPatterns[7] == p;
      case CliVersion => assert AllPatterns[8] == p;
      case ShellScriptVersion => assert AllPatterns[9] == p;
      case Filename => assert AllPatterns[10] == p;
    }
  }

  /** The parts of the three patterns with a lazy `.*?` that follow it. */
  datatype Tail =
    | VersionKeyTail  // version:\s*['"]?(v?\d+\.\d+\.\d+)
    | FlagTail        // --version\s+(v?\d+\.\d+\.\d+)
    | LineEndTail     // \s+(v?\d+\.\d+\.\d+)\s*$

  /** The group captured when `t` matches at `p`. */
  function TailAt(t: Tail, s: string, p: nat): (r: Option<string>)
    requires p <= |s|
    ensures r.Some? ==> IsCapture(r.value)
  {
    match t
    case VersionKeyTail =>
      if HasPrefixAt(s, p, "version:") then QuotedVersionGroup(s, SpaceRunEnd(s, p + 8)) else None
    case FlagTail =>
      if HasPrefixAt(s, p, "--version") then
        var j := SpaceRunEnd(s, p + 9);
        if j == p + 9 then None else VersionGroup(s, j)
      else None
    case LineEndTail =>
      var j := SpaceRunEnd(s, p);
      if j == p then None
      else match VersionEnd(s, j)
        case None => None
        case Some(e) => if OnlySpaceFrom(s, e) then Some(s[j..e]) else None
  }

  /** `.*?` followed by `t`: the first position from `p` on, without crossing a newline, where `t` matches. */
  function LazyTail(t: Tail, s: string, p: nat): (r: Option<string>)
    requires p <= |s|
    ensures r.Some? ==> IsCapture(r.value)
    decreases |s| - p
  {
    match TailAt(t, s, p)
    case Some(c) => Some(c)
    case None => if p < |s| && s[p] != '\n' then LazyTail(t, s, p + 1) else None
  }

  /** The first capture group when `pat`'s expression matches starting exactly at `i`. */
  function CaptureAt(pat: Pattern, s: string, i: nat): (r: Option<string>)
    requires i <= |s|
    ensures r.Some? ==> IsCapture(r.value)
  {
    match pat
    case EnvVersion =>
      var lit := "GOLANGCI_LINT_VERSION";
      if !HasPrefixAt(s, i, lit) then None
      else
        var j := AssignRunEnd(s, i + |lit|);
        if j == i + |lit| then None else QuotedVersionGroup(s, j)
    case MakefileAssign =>
      var lit := "GOLANGCI_LINT_VERSION";
      if !HasPrefixAt(s, i, lit) then None
      else
        var j := SpaceRunEnd(s, i + |lit|);
        var k := if j < |s| && s[j] == ':' then j + 1 else j;
        if k < |s| && s[k] == '=' then QuotedVersionGroup(s, SpaceRunEnd(s, k + 1)) else None
    case InstallVersion =>
      var lit := "install-version:";
      if !HasPrefixAt(s, i, lit) then None
      else QuotedVersionGroup(s, SpaceRunEnd(s, i + |lit|))
    case ActionVersion =>
      var lit := "golangci-lint-action@v";
      if !HasPrefixAt(s, i, lit) then None
      else
        var d := DigitRunEnd(s, i + |lit|);
        if d == i + |lit| then None else LazyTail(VersionKeyTail, s, d)
    case DockerImage =>
      var lit := "golangci/golangci-lint:";
      if !HasPrefixAt(s, i, lit) then None else VersionGroup(s, i + |lit|)
    case AtVersion =>
      var lit := "golangci-lint@";
      if !HasPrefixAt(s, i, lit) then None else VersionGroup(s, i + |lit|)
    case YamlVersion =>
      TailAt(VersionKeyTail, s, i)
    case AltEnv =>
      var lit := "GOLANGCI_VERSION";
      if !HasPrefixAt(s, i, lit) then None
      else
        var j := AssignRunEnd(s, i + |lit|);
        if j == i + |lit| then None else QuotedVersionGroup(s, j)
    case CliVersion =>
      var lit := "golangci-lint";
      if !HasPrefixAt(s, i, lit) then None else LazyTail(FlagTail, s, i + |lit|)
    case ShellScriptVersion =>
      var lit := "install.sh";
      if !HasPrefixAt(s, i, lit) then None else LazyTail(LineEndTail, s, i + |lit|)
    case Filename =>
      var lit := "golangci-lint-";
      if !HasPrefixAt(s, i, lit) then None
      else
        var j := i + |lit|;
        var k := if j < |s| && s[j] == 'v' then j + 1 else j;
        match TripleEnd(s, k)
        case None => None
        case Some(e) => Some(s[k..e])
  }

  /** What `pat` captures when its match starts at each position 0..|s| of `s`. */
  function Captures(pat: Pattern, s: string): (caps: seq<Option<string>>)
    ensures |caps| == |s| + 1
    ensures forall j :: 0 <= j < |caps| ==> caps[j] == CaptureAt(pat, s, j)
  {
    seq(|s| + 1, j requires 0 <= j <= |s| => CaptureAt(pat, s, j))
  }

  /** A group's text has no white space, so trimming leaves it as it is, and normalizing it yields a valid version. */
  lemma NormalizeCapture(c: string)
    requires IsCapture(c)
    ensures TrimSpace(c) == c
    ensures ValidateVersion(Config.NormalizeVersion(c))
  {
    if IsTriple(c) {
      TripleChars(c);
      assert forall k :: 0 <= k < |c| ==> !IsSpace(c[k]);
      TrimSpaceNoSpace(c);
      var n := Config.NormalizeVersion(c);
      assert n == "v" + c;
      assert n[1..] == c;
      ValidateVersionMeaning(n);
    } else {
      TripleChars(c[1..]);
      forall k | 0 <= k < |c| ensures !IsSpace(c[k]) {
        if k > 0 { assert c[k] == c[1..][k - 1]; }
      }
      TrimSpaceNoSpace(c);
      ValidateVersionMeaning(c);
    }
  }

  /**
   * ExtractVersion: "" when the pattern matches nowhere; otherwise the
   * trimmed, normalized group of the leftmost match, which is always a valid
   * version.
   */
  function ExtractVersion(pat: Pattern, text: string): (r: string)
    ensures r == "" || ValidateVersion(r)
  {
    var caps := Captures(pat, text);
    match FirstSome(caps, 0)
    case None => ""
    case Some(c) =>
      assert IsCapture(c) by {
        var j :| 0 <= j < |caps| && caps[j] == Some(c);
        assert CaptureAt(pat, text, j) == Some(c);
      }
      NormalizeCapture(c);
      Config.NormalizeVersion(TrimSpace(c))
  }

  /**
   * ExtractVersion is "" exactly when the expression matches nowhere in the
   * text; otherwise it is the normalized group of the match that starts first.
   */
  lemma ExtractVersionSpec(pat: Pattern, text: string)
    ensures ExtractVersion(pat, text) == "" <==> forall j :: 0 <= j <= |text| ==> CaptureAt(pat, text, j).None?
    ensures ExtractVersion(pat, text) != "" ==>
              exists j :: 0 <= j <= |text| && CaptureAt(pat, text, j).Some?
                          && ExtractVersion(pat, text) == Config.NormalizeVersion(CaptureAt(pat, text, j).value)
                          && forall k :: 0 <= k < j ==> CaptureAt(pat, text, k).None?
  {
    var caps := Captures(pat, text);
    FirstSomeSpec(caps, 0);
    ExtractVersionFirst(pat, text);
    var l := FirstSome(caps, 0);
    if l.None? {
      forall j | 0 <= j <= |text| ensures CaptureAt(pat, text, j).None? {
        assert caps[j].None?;
      }
    } else {
      var j :| 0 <= j < |caps| && caps[j] == l && forall k :: 0 <= k < j ==> caps[k].None?;
      assert CaptureAt(pat, text, j) == l;
      forall k | 0 <= k < j ensures CaptureAt(pat, text, k).None? {
        assert caps[k].None?;
      }
    }
  }

  /** ExtractVersion normalizes the first capture, and gives "" only when there is none. */
  lemma ExtractVersionFirst(pat: Pattern, text: string)
    ensures var l := FirstSome(Captures(pat, text), 0);
      && (l.None? ==> ExtractVersion(pat, text) == "")
      && (l.Some? ==> ExtractVersion(pat, text) == Config.NormalizeVersion(l.value) != "")
  {
    var caps := Captures(pat, text);
    var l := FirstSome(caps, 0);
    if l.Some? {
      var j :| 0 <= j < |caps| && caps[j] == l;
      assert CaptureAt(pat, text, j) == l;
      NormalizeCapture(l.value);
    }
  }

  // ---------------------------------------------------------------------
  // Combinators
  // ---------------------------------------------------------------------
  //
  // The combinators depend on the patterns only through the table of what
  // each pattern extracts, so they are stated over that table (`cs`, one
  // entry per pattern of AllPatterns, "" where the pattern found nothing)
  // and the patterns' names (`names`, in the same order).

  /** A found version and the name of the pattern that found it. */
  datatype VersionMatch = VersionMatch(version: string, patternName: string)

  /** A table of extractions: one per pattern, each "" or a valid version. */
  predicate IsTable(cs: seq<string>) {
    |cs| == |AllPatterns| && forall k :: 0 <= k < |cs| ==> cs[k] == "" || ValidateVersion(cs[k])
  }

  /** What each pattern of AllPatterns extracts from `text`, in priority order. */
  function Candidates(text: string): (cs: seq<string>)
    ensures IsTable(cs)
  {
    seq(|AllPatterns|, k requires 0 <= k < |AllPatterns| => ExtractVersion(AllPatterns[k], text))
  }

  /** The names of the patterns, in priority order. */
  function PatternNames(): (ns: seq<string>)
    ensures |ns| == |AllPatterns|
    ensures forall k :: 0 <= k < |ns| ==> ns[k] == AllPatterns[k].Name()
  {
    seq(|AllPatterns|, k requires 0 <= k < |AllPatterns| => AllPatterns[k].Name())
  }

  function FindIn(cs: seq<string>, names: seq<string>, k: nat): (r: VersionMatch)
    requires |cs| == |names| && k <= |cs|
    ensures r.version == "" ==> r.patternName == "" && forall j :: k <= j < |cs| ==> cs[j] == ""
    ensures r.version != "" ==> exists j :: k <= j < |cs| && cs[j] == r.version
                                             && names[j] == r.patternName
                                             && forall i :: k <= i < j ==> cs[i] == ""
    decreases |cs| - k
  {
    if k == |cs| then VersionMatch("", "")
    else if cs[k] != "" then VersionMatch(cs[k], names[k])
    else FindIn(cs, names, k + 1)
  }

  /**
   * FindVersion: the version of the first pattern in priority order that
   * extracts one, with that pattern's name; ("", "") when none does.
   */
  function FindVersion(text: string): (r: VersionMatch)
    ensures r.version == "" <==> r.patternName == ""
    ensures r.version == "" || ValidateVersion(r.version)
  {
    var names := PatternNames();
    var r := FindIn(Candidates(text), names, 0);
    assert r.version != "" ==> ValidateVersion(r.version) && r.patternName != "" by {
      if r.version != "" {
        var cs := Candidates(text);
        var j :| 0 <= j < |cs| && cs[j] == r.version && names[j] == r.patternName;
      }
    }
    r
  }

  /** FindVersion reports the first pattern, in priority order, that extracts a version. */
  lemma FindVersionSpec(text: string)
    ensures var cs := Candidates(text); var r := FindVersion(text);
      && (r.version == "" ==> forall j :: 0 <= j < |cs| ==> cs[j] == "")
      && (r.version != "" ==> exists j :: 0 <= j < |cs| && cs[j] == r.version
                                          && AllPatterns[j].Name() == r.patternName
                                          && forall i :: 0 <= i < j ==> cs[i] == "")
  {
  }

  /** A version found by the environment-variable pattern wins over every other pattern. */
  lemma EnvVersionWins(text: string)
    requires ExtractVersion(EnvVersion, text) != ""
    ensures FindVersion(text) == VersionMatch(ExtractVersion(EnvVersion, text), "env-version")
  {
    var cs := Candidates(text);
    assert cs[0] == ExtractVersion(EnvVersion, text);
  }

  /** Position of the first entry of `cs` from `k` on that equals `v`, or |cs| when there is none. */
  function FirstIndexFrom(cs: seq<string>, v: string, k: nat): (r: nat)
    requires k <= |cs|
    ensures k <= r <= |cs|
    ensures r < |cs| ==> cs[r] == v
    ensures forall j :: k <= j < r ==> cs[j] != v
    decreases |cs| - k
  {
    if k == |cs| then k
    else if cs[k] == v then k
    else FirstIndexFrom(cs, v, k + 1)
  }

  function FirstIndex(cs: seq<string>, v: string): nat
  {
    FirstIndexFrom(cs, v, 0)
  }

  lemma FirstIndexIs(cs: seq<string>, v: string, j: nat)
    requires j < |cs|
    ensures FirstIndex(cs, v) == j <==> cs[j] == v && forall i :: 0 <= i < j ==> cs[i] != v
  {
  }

  lemma FirstIndexAtMost(cs: seq<string>, v: string, j: nat)
    requires j < |cs| && cs[j] == v
    ensures FirstIndex(cs, v) <= j
  {
  }

  /** The non-empty entries of `cs` before position `k`. */
  function SeenBefore(cs: seq<string>, k: nat): set<string>
    requires k <= |cs|
  {
    if k == 0 then {}
    else SeenBefore(cs, k - 1) + (if cs[k - 1] != "" then {cs[k - 1]} else {})
  }

  lemma {:induction false} SeenBeforeMeaning(cs: seq<string>, k: nat, v: string)
    requires k <= |cs|
    requires v != ""
    ensures v in SeenBefore(cs, k) <==> FirstIndex(cs, v) < k
  {
    if k > 0 {
      SeenBeforeMeaning(cs, k - 1, v);
      FirstIndexIs(cs, v, k - 1);
    }
  }

  /** Entry `m` reports a version together with the name of the first pattern that extracts it. */
  predicate Attributed(cs: seq<string>, names: seq<string>, m: VersionMatch)
    requires |cs| == |names|
  {
    && m.version != ""
    && FirstIndex(cs, m.version) < |cs|
    && names[FirstIndex(cs, m.version)] == m.patternName
  }

  function FindAllIn(cs: seq<string>, names: seq<string>, k: nat, seen: set<string>): (r: seq<VersionMatch>)
    requires |cs| == |names| && k <= |cs|
    decreases |cs| - k
  {
    if k == |cs| then []
    else if cs[k] != "" && cs[k] !in seen then
      [VersionMatch(cs[k], names[k])] + FindAllIn(cs, names, k + 1, seen + {cs[k]})
    else FindAllIn(cs, names, k + 1, seen)
  }

  /** How the set of versions seen grows by one table entry, and what that says about first positions. */
  lemma SeenStep(cs: seq<string>, k: nat)
    requires k < |cs|
    ensures var v := cs[k]; var seen := SeenBefore(cs, k);
      && SeenBefore(cs, k + 1) == (if v != "" && v !in seen then seen + {v} else seen)
      && (v != "" && v !in seen ==> FirstIndex(cs, v) == k)
      && (v != "" && v in seen ==> FirstIndex(cs, v) < k)
  {
    var v := cs[k];
    if v != "" {
      SeenBeforeMeaning(cs, k, v);
      FirstIndexAtMost(cs, v, k);
    }
  }

  /** One step of FindAllIn when `seen` is exactly what the earlier entries hold. */
  lemma FindAllStep(cs: seq<string>, names: seq<string>, k: nat)
    requires |cs| == |names| && k < |cs|
    ensures var v := cs[k]; var rest := FindAllIn(cs, names, k + 1, SeenBefore(cs, k + 1));
      FindAllIn(cs, names, k, SeenBefore(cs, k))
        == if v != "" && FirstIndex(cs, v) == k then [VersionMatch(v, names[k])] + rest else rest
  {
    SeenStep(cs, k);
  }

  /** Every entry FindAllIn reports is attributed to the first pattern that extracts it, at or after `k`. */
  lemma {:induction false} FindAllInAttributed(cs: seq<string>, names: seq<string>, k: nat)
    requires |cs| == |names| && k <= |cs|
    ensures var r := FindAllIn(cs, names, k, SeenBefore(cs, k));
      && |r| <= |cs| - k
      && forall i :: 0 <= i < |r| ==> Attributed(cs, names, r[i]) && k <= FirstIndex(cs, r[i].version)
    decreases |cs| - k
  {
    if k < |cs| {
      FindAllStep(cs, names, k);
      FindAllInAttributed(cs, names, k + 1);
    }
  }

  /** FindAllIn reports versions in the order of the first pattern that extracts each. */
  lemma {:induction false} FindAllInOrdered(cs: seq<string>, names: seq<string>, k: nat)
    requires |cs| == |names| && k <= |cs|
    ensures var r := FindAllIn(cs, names, k, SeenBefore(cs, k));
      forall i, j :: 0 <= i < j < |r| ==> FirstIndex(cs, r[i].version) < FirstIndex(cs, r[j].version)
    decreases |cs| - k
  {
    if k < |cs| {
      FindAllStep(cs, names, k);
      FindAllInOrdered(cs, names, k + 1);
      FindAllInAttributed(cs, names, k + 1);
    }
  }

  /** FindAllIn misses no version whose first extracting pattern is at or after `k`. */
  lemma {:induction false} FindAllInComplete(cs: seq<string>, names: seq<string>, k: nat, j: nat)
    requires |cs| == |names| && k <= j < |cs| && cs[j] != "" && FirstIndex(cs, cs[j]) >= k
    ensures var r := FindAllIn(cs, names, k, SeenBefore(cs, k));
      exists i :: 0 <= i < |r| && r[i].version == cs[j]
    decreases |cs| - k
  {
    FindAllStep(cs, names, k);
    var r := FindAllIn(cs, names, k, SeenBefore(cs, k));
    var w := cs[j];
    FirstIndexAtMost(cs, w, j);
    var rest := FindAllIn(cs, names, k + 1, SeenBefore(cs, k + 1));
    var taken := cs[k] != "" && FirstIndex(cs, cs[k]) == k;
    var head := VersionMatch(cs[k], names[k]);
    if FirstIndex(cs, w) == k {
      assert cs[k] == w;
      assert r == [head] + rest;
      assert r[0].version == w;
    } else {
      FindAllInComplete(cs, names, k + 1, j);
      var i :| 0 <= i < |rest| && rest[i].version == w;
      if taken {
        assert r == [head] + rest;
        assert r[i + 1] == rest[i];
      } else {
        assert r == rest;
      }
    }
  }

  /**
   * FindAllVersions: one entry per distinct version, each carrying the name
   * of the first pattern that extracts it, in pattern order; every version
   * any pattern extracts is listed.
   */
  function FindAllVersions(text: string): (r: seq<VersionMatch>)
    ensures var cs := Candidates(text);
      && |r| <= |AllPatterns|
      && (forall i :: 0 <= i < |r| ==> Attributed(cs, PatternNames(), r[i]) && ValidateVersion(r[i].version))
      && (forall i, j :: 0 <= i < j < |r| ==> FirstIndex(cs, r[i].version) < FirstIndex(cs, r[j].version))
      && (forall i, j :: 0 <= i < j < |r| ==> r[i].version != r[j].version)
      && (forall k :: 0 <= k < |cs| && cs[k] != "" ==> exists i :: 0 <= i < |r| && r[i].version == cs[k])
  {
    var cs := Candidates(text);
    var r := FindAllIn(cs, PatternNames(), 0, {});
    FindAllSpec(cs, PatternNames());
    assert forall i :: 0 <= i < |r| ==> ValidateVersion(r[i].version) by {
      forall i | 0 <= i < |r| ensures ValidateVersion(r[i].version) {
        assert cs[FirstIndex(cs, r[i].version)] == r[i].version;
      }
    }
    r
  }

  /** The whole scan of a table: attributed, ordered by first pattern, free of duplicates, complete. */
  lemma FindAllSpec(cs: seq<string>, names: seq<string>)
    requires |cs| == |names|
    ensures var r := FindAllIn(cs, names, 0, {});
      && |r| <= |cs|
      && (forall i :: 0 <= i < |r| ==> Attributed(cs, names, r[i]) && cs[FirstIndex(cs, r[i].version)] == r[i].version)
      && (forall i, j :: 0 <= i < j < |r| ==> FirstIndex(cs, r[i].version) < FirstIndex(cs, r[j].version))
      && (forall i, j :: 0 <= i < j < |r| ==> r[i].version != r[j].version)
      && (forall k :: 0 <= k < |cs| && cs[k] != "" ==> exists i :: 0 <= i < |r| && r[i].version == cs[k])
  {
    var r := FindAllIn(cs, names, 0, {});
    assert SeenBefore(cs, 0) == {};
    FindAllInAttributed(cs, names, 0);
    FindAllInOrdered(cs, names, 0);
    forall k | 0 <= k < |cs| && cs[k] != "" ensures exists i :: 0 <= i < |r| && r[i].version == cs[k] {
      FindAllInComplete(cs, names, 0, k);
    }
  }

  /**
   * FindAllVersions finds nothing exactly when FindVersion finds nothing,
   * and otherwise starts with FindVersion's answer.
   */
  lemma FindAllStartsWithFind(text: string)
    ensures FindAllVersions(text) == [] <==> FindVersion(text).version == ""
    ensures FindAllVersions(text) != [] ==> FindAllVersions(text)[0] == FindVersion(text)
  {
    FindAllStartsWithFindIn(Candidates(text), PatternNames());
  }

  /** On any table, the full scan is empty exactly when the first-match scan finds nothing, and starts with its answer. */
  lemma FindAllStartsWithFindIn(cs: seq<string>, names: seq<string>)
    requires |cs| == |names|
    ensures var r := FindAllIn(cs, names, 0, {}); var m := FindIn(cs, names, 0);
      && (r == [] <==> m.version == "")
      && (r != [] ==> r[0] == m)
  {
    var r := FindAllIn(cs, names, 0, {});
    var m := FindIn(cs, names, 0);
    FindAllSpec(cs, names);
    if m.version != "" {
      var j :| 0 <= j < |cs| && cs[j] == m.version && names[j] == m.patternName
               && forall i :: 0 <= i < j ==> cs[i] == "";
      var i :| 0 <= i < |r| && r[i].version == m.version;
      FirstIndexIs(cs, m.version, j);
      var f0 := FirstIndex(cs, r[0].version);
      assert cs[f0] != "";
      assert f0 >= j;
      assert f0 <= j;
    }
  }

  /** A version, the name of the pattern that found it, and its 1-based line (0: no match). */
  datatype LineMatch = LineMatch(version: string, patternName: string, line: nat)

  /** FindVersion on each line. */
  function LineFinds(lines: seq<string>): (ms: seq<VersionMatch>)
    ensures |ms| == |lines|
    ensures forall k :: 0 <= k < |lines| ==> ms[k] == FindVersion(lines[k])
    ensures forall k :: 0 <= k < |ms| ==> ms[k].version == "" || ValidateVersion(ms[k].version)
  {
    seq(|lines|, k requires 0 <= k < |lines| => FindVersion(lines[k]))
  }

  /** The first of the per-line results `ms`, from line index `i` on, that holds a version. */
  function ScanLines(ms: seq<VersionMatch>, i: nat): (r: LineMatch)
    requires i <= |ms|
    ensures r.line == 0 <==> r.version == ""
    ensures r.line == 0 ==> r.patternName == "" && forall k :: i <= k < |ms| ==> ms[k].version == ""
    ensures r.line > 0 ==> i < r.line <= |ms|
                           && ms[r.line - 1] == VersionMatch(r.version, r.patternName)
                           && forall k :: i <= k < r.line - 1 ==> ms[k].version == ""
    decreases |ms| - i
  {
    if i == |ms| then LineMatch("", "", 0)
    else if ms[i].version != "" then LineMatch(ms[i].version, ms[i].patternName, i + 1)
    else ScanLines(ms, i + 1)
  }

  /**
   * ExtractVersionFromLines: FindVersion on each newline-separated line, top
   * to bottom; the first line that yields a version gives the result with
   * its 1-based number, and no line before it yields one.
   */
  function ExtractVersionFromLines(text: string): (r: LineMatch)
    ensures var lines := SplitLines(text);
      && (r.line == 0 <==> r.version == "")
      && (r.line == 0 ==> r.patternName == "" && forall k :: 0 <= k < |lines| ==> FindVersion(lines[k]).version == "")
      && (r.line > 0 ==> r.line <= |lines|
                         && FindVersion(lines[r.line - 1]) == VersionMatch(r.version, r.patternName)
                         && forall k :: 0 <= k < r.line - 1 ==> FindVersion(lines[k]).version == "")
    ensures r.version == "" || ValidateVersion(r.version)
  {
    ScanLines(LineFinds(SplitLines(text)), 0)
  }
}
