/**
 * The cache manager: listing the installed versions in version order,
 * removing one or many of them, their total size, and the two thin wrappers
 * over the configuration (EnsureVersionDir, IsCached).
 */
module Cache {
  import opened Wrappers
  import opened Text
  import opened Disk
  import Config
  import Patterns

  // ---------------------------------------------------------------------
  // Semantic versions
  // ---------------------------------------------------------------------

  datatype Semver = Semver(major: nat, minor: nat, patch: nat)

  /** Semantic-version precedence: major, then minor, then patch. */
  predicate Greater(a: Semver, b: Semver) {
    a.major > b.major
    || (a.major == b.major && (a.minor > b.minor || (a.minor == b.minor && a.patch > b.patch)))
  }

  /**
   * The semantic version a directory name spells, `v?D+.D+.D+`, or None when
   * it spells none.
   */
  function ParseSemver(s: string): (r: Option<Semver>)
  {
    var k := if |s| > 0 && s[0] == 'v' then 1 else 0;
    var a := Patterns.DigitRunEnd(s, k);
    if a == k || a == |s| || s[a] != '.' then None
    else
      var b := Patterns.DigitRunEnd(s, a + 1);
      if b == a + 1 || b == |s| || s[b] != '.' then None
      else
        var c := Patterns.DigitRunEnd(s, b + 1);
        if c == b + 1 || c != |s| then None
        else Some(Semver(DecimalValue(s[k..a]), DecimalValue(s[a + 1..b]), DecimalValue(s[b + 1..c])))
  }

  /** A name parses exactly when its normalized form is a valid version. */
  lemma ParseSemverValid(s: string)
    ensures ParseSemver(s).Some? <==> Patterns.ValidateVersion(Config.NormalizeVersion(s))
  {
    var k := if |s| > 0 && s[0] == 'v' then 1 else 0;
    ParseSemverTriple(s, k);
    Patterns.TripleEndWhole(s, k);
    var n := Config.NormalizeVersion(s);
    Patterns.ValidateVersionMeaning(n);
    if |s| > 0 && s[0] != 'v' {
      assert n[1..] == s[k..];
    }
  }

  /** ParseSemver succeeds exactly when a triple starts after the optional 'v' and runs to the end. */
  lemma ParseSemverTriple(s: string, k: nat)
    requires k == if |s| > 0 && s[0] == 'v' then 1 else 0
    ensures ParseSemver(s).Some? <==> Patterns.TripleEnd(s, k) == Some(|s|)
  {
  }

  /** The name `vMAJOR.MINOR.PATCH` of a version. */
  function FormatSemver(v: Semver): (s: string)
  {
    "v" + NatToDecimal(v.major) + "." + NatToDecimal(v.minor) + "." + NatToDecimal(v.patch)
  }

  /** Parsing a formatted version gives it back. */
  lemma ParseFormat(v: Semver)
    ensures ParseSemver(FormatSemver(v)) == Some(v)
  {
    var x, y, z := NatToDecimal(v.major), NatToDecimal(v.minor), NatToDecimal(v.patch);
    var s := FormatSemver(v);
    FormatLayout(x, y, z);
    var a := 1 + |x|;
    var b := a + 1 + |y|;
    DigitsAt(s, 1, a);
    DigitsAt(s, a + 1, b);
    DigitsAt(s, b + 1, |s|);
    ParseLayout(s, a, b);
  }

  /** A 'v', digits up to a dot at `a`, digits up to a dot at `b`, digits to the end: ParseSemver reads the three runs. */
  lemma ParseLayout(s: string, a: nat, b: nat)
    requires 1 < a && a + 1 < b && b + 1 < |s|
    requires s[0] == 'v' && s[a] == '.' && s[b] == '.'
    requires forall k :: 1 <= k < a ==> IsDigit(s[k])
    requires forall k :: a < k < b ==> IsDigit(s[k])
    requires forall k :: b < k < |s| ==> IsDigit(s[k])
    ensures AllDigits(s[1..a]) && AllDigits(s[a + 1..b]) && AllDigits(s[b + 1..])
    ensures ParseSemver(s) == Some(Semver(DecimalValue(s[1..a]), DecimalValue(s[a + 1..b]), DecimalValue(s[b + 1..])))
  {
    Patterns.DigitRunEndUnique(s, 1, a);
    Patterns.DigitRunEndUnique(s, a + 1, b);
    Patterns.DigitRunEndUnique(s, b + 1, |s|);
    assert s[b + 1..|s|] == s[b + 1..];
  }

  /** Where the pieces of `v<x>.<y>.<z>` sit. */
  lemma FormatLayout(x: string, y: string, z: string)
    ensures var s := "v" + x + "." + y + "." + z; var a := 1 + |x|; var b := a + 1 + |y|;
      && |s| == b + 1 + |z|
      && s[0] == 'v' && s[a] == '.' && s[b] == '.'
      && s[1..a] == x && s[a + 1..b] == y && s[b + 1..|s|] == z
  {
    var s := "v" + x + "." + y + "." + z;
    var a := 1 + |x|;
    var b := a + 1 + |y|;
    assert s == (((("v" + x) + ".") + y) + ".") + z;
    assert s[1..a] == x;
    assert s[a + 1..b] == y;
  }

  /** Every character of a digit-only slice is a digit. */
  lemma DigitsAt(s: string, i: nat, j: nat)
    requires i <= j <= |s| && AllDigits(s[i..j])
    ensures forall k :: i <= k < j ==> IsDigit(s[k])
  {
    forall k | i <= k < j ensures IsDigit(s[k]) {
      assert s[k] == s[i..j][k - i];
    }
  }

  // ---------------------------------------------------------------------
  // Listing
  // ---------------------------------------------------------------------

  /**
   * One installed version as the cache manager reports it. `parsed` is the
   * semantic version the name spells, which the sort consults.
   */
  datatype CachedVersion = CachedVersion(
    version: string,
    path: string,
    binaryPath: string,
    size: nat,
    modTime: int,
    isComplete: bool,
    parsed: Option<Semver>)

  datatype CacheError =
    | ListFailed
    | NotCached(version: string)
    | RemoveFailed(version: string)
    | InvalidKeep
    | EnsureDirError(cause: Option<Config.ConfigError>)

  /** The report for a directory entry: size and time from the binary when it can be stat'ed, otherwise size 0 and the directory's time. */
  function EntryOf(c: Config.Config, t: Tree, e: VersionEntry): (cv: CachedVersion)
    ensures cv.version == e.name && cv.parsed == ParseSemver(e.name)
    ensures cv.path == Config.GetVersionDir(c, e.name) && cv.binaryPath == Config.GetBinaryPath(c, e.name)
  {
    var info := Config.StatBinary(c, t, e.name);
    CachedVersion(
      e.name,
      Config.GetVersionDir(c, e.name),
      Config.GetBinaryPath(c, e.name),
      if info.Some? then info.value.size else 0,
      if info.Some? then info.value.modTime else e.modTime,
      Config.BinaryExists(c, t, e.name),
      ParseSemver(e.name))
  }

  /** What EntryOf reports for a directory of the tree, in terms of the files inside it. */
  lemma EntryOfSpec(c: Config.Config, t: Tree, e: VersionEntry)
    requires WellFormed(t) && e in Entries(t) && e.isDir
    ensures var cv := EntryOf(c, t, e); var bin := Config.BinaryName(c.os);
      && (cv.isComplete <==> bin in e.files && e.files[bin].regular
                             && (t.hostOS != Config.Windows ==> e.files[bin].execBits))
      && (bin in e.files ==> cv.size == e.files[bin].size && cv.modTime == e.files[bin].modTime)
      && (bin !in e.files ==> cv.size == 0 && cv.modTime == e.modTime)
  {
    LookupFinds(Entries(t), e);
  }

  predicate DistinctVersions(vs: seq<CachedVersion>) {
    forall i, j :: 0 <= i < j < |vs| ==> vs[i].version != vs[j].version
  }

  /** The directory entries of `es`, in listing order. */
  function Dirs(es: seq<VersionEntry>): (ds: seq<VersionEntry>)
    ensures forall e :: e in ds <==> e in es && e.isDir
    ensures DistinctNames(es) ==> DistinctNames(ds)
  {
    if |es| == 0 then []
    else
      var rest := Dirs(es[1..]);
      assert forall x :: x in es <==> x == es[0] || x in es[1..] by { assert es == [es[0]] + es[1..]; }
      DistinctTail(es);
      if es[0].isDir then
        ConsDistinct(es[0], rest);
        [es[0]] + rest
      else rest
  }

  /** The reports for the directory entries of `es`, in listing order; other entries are skipped. */
  function Collect(c: Config.Config, t: Tree, es: seq<VersionEntry>): (r: seq<CachedVersion>)
    ensures |r| == |Dirs(es)|
    ensures forall i :: 0 <= i < |r| ==> r[i] == EntryOf(c, t, Dirs(es)[i])
  {
    var ds := Dirs(es);
    seq(|ds|, i requires 0 <= i < |ds| => EntryOf(c, t, ds[i]))
  }

  /** Collect reports every directory entry and nothing else, one report per name. */
  lemma CollectSpec(c: Config.Config, t: Tree, es: seq<VersionEntry>)
    ensures var r := Collect(c, t, es);
      && |r| <= |es|
      && (forall v :: v in r ==> exists e :: e in es && e.isDir && v == EntryOf(c, t, e))
      && (forall e :: e in es && e.isDir ==> EntryOf(c, t, e) in r)
      && (DistinctNames(es) ==> DistinctVersions(r))
  {
    DirsLength(es);
    CollectReportsDirs(c, t, es);
    CollectHasEveryDir(c, t, es);
    if DistinctNames(es) {
      CollectDistinct(c, t, es);
    }
  }

  /** Distinct entry names give distinct reported versions. */
  lemma CollectDistinct(c: Config.Config, t: Tree, es: seq<VersionEntry>)
    requires DistinctNames(es)
    ensures DistinctVersions(Collect(c, t, es))
  {
    var ds := Dirs(es);
    var r := Collect(c, t, es);
    forall i, j | 0 <= i < j < |r| ensures r[i].version != r[j].version {
      assert r[i].version == ds[i].name && r[j].version == ds[j].name;
    }
  }

  /** Every report Collect gives is the report of a directory entry. */
  lemma CollectReportsDirs(c: Config.Config, t: Tree, es: seq<VersionEntry>)
    ensures forall v :: v in Collect(c, t, es) ==> exists e :: e in es && e.isDir && v == EntryOf(c, t, e)
  {
    var ds := Dirs(es);
    var r := Collect(c, t, es);
    forall v | v in r ensures exists e :: e in es && e.isDir && v == EntryOf(c, t, e) {
      var i :| 0 <= i < |r| && r[i] == v;
      assert ds[i] in ds;
    }
  }

  /** Every directory entry is reported by Collect. */
  lemma CollectHasEveryDir(c: Config.Config, t: Tree, es: seq<VersionEntry>)
    ensures forall e :: e in es && e.isDir ==> EntryOf(c, t, e) in Collect(c, t, es)
  {
    var ds := Dirs(es);
    var r := Collect(c, t, es);
    forall e | e in es && e.isDir ensures EntryOf(c, t, e) in r {
      var i :| 0 <= i < |ds| && ds[i] == e;
      assert r[i] == EntryOf(c, t, e);
    }
  }

  lemma {:induction false} DirsLength(es: seq<VersionEntry>)
    ensures |Dirs(es)| <= |es|
  {
    if |es| > 0 {
      DirsLength(es[1..]);
    }
  }

  /**
   * The order List sorts by: parsable names first, newest version first;
   * unparsable names after them, most recently modified first.
   */
  predicate Less(a: CachedVersion, b: CachedVersion) {
    var pa := a.parsed;
    var pb := b.parsed;
    if pa.Some? && pb.Some? then Greater(pa.value, pb.value)
    else if pa.None? && pb.None? then a.modTime > b.modTime
    else pa.Some?
  }

  lemma LessAsymmetric(a: CachedVersion, b: CachedVersion)
    ensures Less(a, b) ==> !Less(b, a)
  {
  }

  /** "Not before" is transitive, so Less is a strict weak order. */
  lemma NotLessTransitive(a: CachedVersion, b: CachedVersion, c: CachedVersion)
    ensures !Less(a, b) && !Less(b, c) ==> !Less(a, c)
  {
  }

  /** No element is placed after one that should come after it. */
  predicate Sorted(vs: seq<CachedVersion>) {
    forall i, j :: 0 <= i < j < |vs| ==> !Less(vs[j], vs[i])
  }

  function Insert(x: CachedVersion, s: seq<CachedVersion>): (r: seq<CachedVersion>)
    ensures multiset(r) == multiset(s) + multiset{x}
  {
    if |s| == 0 then [x]
    else if Less(s[0], x) then
      assert s == [s[0]] + s[1..];
      [s[0]] + Insert(x, s[1..])
    else [x] + s
  }

  lemma InsertMembers(x: CachedVersion, s: seq<CachedVersion>)
    ensures forall y :: y in Insert(x, s) <==> y == x || y in s
  {
    forall y ensures y in Insert(x, s) <==> y == x || y in s {
      assert y in Insert(x, s) <==> y in multiset(Insert(x, s));
    }
  }

  /** Inserting into a sorted list keeps it sorted. */
  lemma {:induction false} InsertSorted(x: CachedVersion, s: seq<CachedVersion>)
    requires Sorted(s)
    ensures Sorted(Insert(x, s))
  {
    if |s| > 0 {
      if Less(s[0], x) {
        var rest := Insert(x, s[1..]);
        InsertSorted(x, s[1..]);
        InsertMembers(x, s[1..]);
        LessAsymmetric(s[0], x);
        forall y | y in s[1..] ensures !Less(y, s[0]) {
          var k :| 0 <= k < |s[1..]| && s[1..][k] == y;
          assert s[k + 1] == y;
        }
        ConsSorted(s[0], rest);
      } else {
        forall y | y in s ensures !Less(y, x) {
          var k :| 0 <= k < |s| && s[k] == y;
          NotLessTransitive(s[k], s[0], x);
        }
        ConsSorted(x, s);
      }
    }
  }

  /** An element that nothing in a sorted list should precede can go in front of it. */
  lemma ConsSorted(h: CachedVersion, rest: seq<CachedVersion>)
    requires Sorted(rest) && forall y :: y in rest ==> !Less(y, h)
    ensures Sorted([h] + rest)
  {
    var r := [h] + rest;
    forall i, j | 0 <= i < j < |r| ensures !Less(r[j], r[i]) {
      assert r[j] == rest[j - 1];
      if i > 0 { assert r[i] == rest[i - 1]; }
    }
  }

  /** A name absent from a list of distinct names can go in front of it. */
  lemma ConsDistinctVersions(h: CachedVersion, rest: seq<CachedVersion>)
    requires DistinctVersions(rest) && forall y :: y in rest ==> y.version != h.version
    ensures DistinctVersions([h] + rest)
  {
    var r := [h] + rest;
    forall i, j | 0 <= i < j < |r| ensures r[i].version != r[j].version {
      assert r[j] == rest[j - 1];
      if i > 0 { assert r[i] == rest[i - 1]; }
    }
  }

  /** Inserting a new name into a list of distinct names keeps them distinct. */
  lemma {:induction false} InsertDistinct(x: CachedVersion, s: seq<CachedVersion>)
    requires DistinctVersions(s) && forall y :: y in s ==> y.version != x.version
    ensures DistinctVersions(Insert(x, s))
  {
    if |s| > 0 {
      var tail := s[1..];
      assert forall y :: y in tail ==> y in s;
      assert DistinctVersions(tail) by {
        forall i, j | 0 <= i < j < |tail| ensures tail[i].version != tail[j].version {
          assert tail[i] == s[i + 1] && tail[j] == s[j + 1];
        }
      }
      forall y | y in tail ensures y.version != s[0].version {
        var k :| 0 <= k < |tail| && tail[k] == y;
        assert s[k + 1] == y;
      }
      if Less(s[0], x) {
        var rest := Insert(x, tail);
        InsertDistinct(x, tail);
        InsertMembers(x, tail);
        ConsDistinctVersions(s[0], rest);
      } else {
        ConsDistinctVersions(x, s);
      }
    }
  }

  /** Insertion sort under Less. */
  function Sort(s: seq<CachedVersion>): (r: seq<CachedVersion>)
    ensures multiset(r) == multiset(s)
  {
    if |s| == 0 then []
    else
      assert s == [s[0]] + s[1..];
      Insert(s[0], Sort(s[1..]))
  }

  /** Sort's result is in order, and keeps distinct names distinct. */
  lemma {:induction false} SortSpec(s: seq<CachedVersion>)
    ensures Sorted(Sort(s))
    ensures DistinctVersions(s) ==> DistinctVersions(Sort(s))
  {
    if |s| > 0 {
      SortSpec(s[1..]);
      var rest := Sort(s[1..]);
      InsertSorted(s[0], rest);
      if DistinctVersions(s) {
        forall y | y in rest ensures y.version != s[0].version {
          assert y in multiset(rest);
          var k :| 0 <= k < |s[1..]| && s[1..][k] == y;
          assert s[k + 1] == y;
        }
        assert DistinctVersions(s[1..]) by {
          forall i, j | 0 <= i < j < |s[1..]| ensures s[1..][i].version != s[1..][j].version {
            assert s[1..][i] == s[i + 1] && s[1..][j] == s[j + 1];
          }
        }
        InsertDistinct(s[0], rest);
      }
    }
  }

  /**
   * List: no versions directory gives an empty list; an unreadable one is an
   * error; otherwise one report per directory entry, in List's sort order.
   */
  function List(c: Config.Config, t: Tree): (r: Result<seq<CachedVersion>, CacheError>)
    ensures t.versions.Absent? ==> r == Ok([])
    ensures r.Err? <==> t.versions.Unreadable?
    ensures r.Ok? ==> multiset(r.value) == multiset(Collect(c, t, Entries(t)))
  {
    match t.versions
    case Absent => Ok([])
    case Unreadable => Err(ListFailed)
    case Listing(es) => Ok(Sort(Collect(c, t, es)))
  }

  /** List reports every directory entry once and nothing else. */
  lemma ListContents(c: Config.Config, t: Tree)
    requires List(c, t).Ok?
    ensures var vs := List(c, t).value;
      && (forall v :: v in vs ==> exists e :: e in Entries(t) && e.isDir && v == EntryOf(c, t, e))
      && (forall e :: e in Entries(t) && e.isDir ==> EntryOf(c, t, e) in vs)
      && (WellFormed(t) ==> DistinctVersions(vs))
  {
    ListReportsDirs(c, t);
    ListHasEveryDir(c, t);
    if WellFormed(t) && t.versions.Listing? {
      CollectSpec(c, t, Entries(t));
      SortSpec(Collect(c, t, Entries(t)));
    }
  }

  /** Every report List gives is the report of a directory entry. */
  lemma ListReportsDirs(c: Config.Config, t: Tree)
    requires List(c, t).Ok?
    ensures forall v :: v in List(c, t).value ==> exists e :: e in Entries(t) && e.isDir && v == EntryOf(c, t, e)
  {
    var vs := List(c, t).value;
    var col := Collect(c, t, Entries(t));
    CollectSpec(c, t, Entries(t));
    forall v | v in vs ensures exists e :: e in Entries(t) && e.isDir && v == EntryOf(c, t, e) {
      SameMembers(vs, col);
      assert v in col;
    }
  }

  /** Every directory entry is reported by List. */
  lemma ListHasEveryDir(c: Config.Config, t: Tree)
    requires List(c, t).Ok?
    ensures forall e :: e in Entries(t) && e.isDir ==> EntryOf(c, t, e) in List(c, t).value
  {
    var vs := List(c, t).value;
    var col := Collect(c, t, Entries(t));
    CollectSpec(c, t, Entries(t));
    forall e | e in Entries(t) && e.isDir ensures EntryOf(c, t, e) in vs {
      SameMembers(vs, col);
      assert EntryOf(c, t, e) in col;
    }
  }

  /** Two lists with the same multiset have the same members. */
  lemma SameMembers<T>(a: seq<T>, b: seq<T>)
    requires multiset(a) == multiset(b)
    ensures forall x :: x in a <==> x in b
  {
    forall x ensures x in a <==> x in b {
      assert x in a <==> x in multiset(a);
      assert x in b <==> x in multiset(b);
    }
  }

  /**
   * The order List promises: every parsable name before every unparsable
   * one, parsable names newest version first, unparsable names most
   * recently modified first.
   */
  lemma ListOrder(c: Config.Config, t: Tree, i: nat, j: nat)
    requires List(c, t).Ok? && i < j < |List(c, t).value|
    ensures var vs := List(c, t).value;
      var pi := ParseSemver(vs[i].version); var pj := ParseSemver(vs[j].version);
      && (pj.Some? ==> pi.Some?)
      && (pi.Some? && pj.Some? ==> !Greater(pj.value, pi.value))
      && (pi.None? && pj.None? ==> vs[i].modTime >= vs[j].modTime)
  {
    var vs := List(c, t).value;
    ListContents(c, t);
    SortSpec(Collect(c, t, Entries(t)));
    assert vs[i] in vs && vs[j] in vs;
    assert !Less(vs[j], vs[i]);
  }

  // ---------------------------------------------------------------------
  // Removing
  // ---------------------------------------------------------------------

  /** The outcome of one removal: the new tree and the error, if any. */
  datatype Removal = Removal(tree: Tree, error: Option<CacheError>)

  /**
   * os.RemoveAll of the directory entry called `name`: a missing name is
   * "not cached"; an entry that cannot be deleted, or a versions directory
   * that cannot be read, is a failure that leaves the tree as it was.
   */
  function RemoveDir(t: Tree, name: string): (r: Removal)
    requires WellFormed(t)
    ensures WellFormed(r.tree)
    ensures r.tree.hostOS == t.hostOS && r.tree.current == t.current
    ensures r.error.Some? ==> r.tree == t
    ensures !t.versions.Unreadable? && Lookup(Entries(t), name).None? ==> r.error == Some(NotCached(name))
    ensures r.error.None? <==> t.versions.Listing? && Lookup(Entries(t), name).Some?
                               && Lookup(Entries(t), name).value.removable
    ensures r.error.None? ==> r.tree.versions == Listing(Without(Entries(t), name))
  {
    match t.versions
    case Absent => Removal(t, Some(NotCached(name)))
    case Unreadable => Removal(t, Some(RemoveFailed(name)))
    case Listing(es) =>
      match Lookup(es, name)
      case None => Removal(t, Some(NotCached(name)))
      case Some(e) =>
        if e.removable then Removal(t.(versions := Listing(Without(es, name))), None)
        else Removal(t, Some(RemoveFailed(name)))
  }

  /**
   * os.RemoveAll of the versions directory itself: every deletable entry
   * goes; the directory goes too when nothing is left, and otherwise the
   * call fails.
   */
  function ClearVersions(t: Tree): (r: Removal)
    requires WellFormed(t)
    ensures WellFormed(r.tree)
    ensures r.tree.hostOS == t.hostOS && r.tree.current == t.current
    ensures t.versions.Absent? ==> r.error == Some(NotCached(""))
    ensures forall e :: e in Entries(r.tree) <==> e in Entries(t) && (t.versions.Unreadable? || !e.removable)
  {
    match t.versions
    case Absent => Removal(t, Some(NotCached("")))
    case Unreadable => Removal(t, Some(RemoveFailed("")))
    case Listing(es) =>
      var kept := Kept(es);
      if |kept| == 0 then Removal(t.(versions := Absent), None)
      else Removal(t.(versions := Listing(kept)), Some(RemoveFailed("")))
  }

  /** The entries os.RemoveAll cannot delete. */
  function Kept(es: seq<VersionEntry>): (r: seq<VersionEntry>)
    ensures forall e :: e in r <==> e in es && !e.removable
    ensures DistinctNames(es) ==> DistinctNames(r)
  {
    if |es| == 0 then []
    else
      var rest := Kept(es[1..]);
      assert forall x :: x in es <==> x == es[0] || x in es[1..] by { assert es == [es[0]] + es[1..]; }
      DistinctTail(es);
      if es[0].removable then rest
      else
        ConsDistinct(es[0], rest);
        [es[0]] + rest
  }

  /**
   * Remove: normalizes `version` and deletes that version's directory; an
   * absent directory is an error and changes nothing. The empty name
   * normalizes to "" and names the versions directory itself.
   */
  function Remove(c: Config.Config, t: Tree, version: string): (r: Removal)
    requires WellFormed(t)
    ensures WellFormed(r.tree)
    ensures r.tree.hostOS == t.hostOS && r.tree.current == t.current
  {
    var v := Config.NormalizeVersion(version);
    if v == "" then ClearVersions(t) else RemoveDir(t, v)
  }

  /** Remove deletes exactly the normalized name's directory, or fails and changes nothing. */
  lemma RemoveSpec(c: Config.Config, t: Tree, version: string)
    requires WellFormed(t) && version != ""
    ensures var r := Remove(c, t, version); var v := Config.NormalizeVersion(version);
      && (r.error.Some? ==> r.tree == t)
      && (!t.versions.Unreadable? && Lookup(Entries(t), v).None? ==> r.error == Some(NotCached(v)))
      && (r.error.None? ==> forall e :: e in Entries(r.tree) <==> e in Entries(t) && e.name != v)
  {
  }

  /** Remove of the empty name deletes every deletable version at once. */
  lemma RemoveEmptyName(c: Config.Config, t: Tree)
    requires WellFormed(t) && t.versions.Listing?
    ensures forall e :: e in Entries(Remove(c, t, "").tree) <==> e in Entries(t) && !e.removable
  {
  }

  /**
   * How the bulk removers name each directory: as written they hand the
   * listed name to Remove, which normalizes it again; ByName deletes the
   * listed directory itself.
   */
  datatype Naming = Renormalized | ByName

  function RemoveOne(how: Naming, c: Config.Config, t: Tree, name: string): (r: Removal)
    requires WellFormed(t)
    ensures WellFormed(r.tree)
    ensures r.tree.hostOS == t.hostOS && r.tree.current == t.current
  {
    match how
    case Renormalized => Remove(c, t, name)
    case ByName => RemoveDir(t, name)
  }

  /** The result of a bulk removal: the new tree, how many removals succeeded, and the last error. */
  datatype Sweep = Sweep(tree: Tree, removed: nat, lastError: Option<CacheError>)

  /**
   * Removes each name in order without stopping at a failure, counting the
   * successes and keeping the last error.
   */
  function RemoveEach(how: Naming, c: Config.Config, t: Tree, names: seq<string>): (r: Sweep)
    requires WellFormed(t)
    ensures WellFormed(r.tree)
    ensures r.tree.hostOS == t.hostOS && r.tree.current == t.current
    ensures r.removed <= |names|
    ensures r.lastError.None? <==> r.removed == |names|
    decreases |names|
  {
    if |names| == 0 then Sweep(t, 0, None)
    else
      var first := RemoveOne(how, c, t, names[0]);
      var rest := RemoveEach(how, c, first.tree, names[1..]);
      Sweep(rest.tree,
            rest.removed + (if first.error.None? then 1 else 0),
            if rest.lastError.Some? then rest.lastError else first.error)
  }

  /**
   * Removing directories by their own names deletes exactly the deletable
   * entries named, and leaves every other entry in place.
   */
  lemma {:induction false} RemoveEachByName(c: Config.Config, t: Tree, names: seq<string>)
    requires WellFormed(t) && t.versions.Listing?
    ensures var r := RemoveEach(ByName, c, t, names);
      && r.tree.versions.Listing?
      && forall e :: e in Entries(r.tree) <==> e in Entries(t) && !(e.name in names && e.removable)
    decreases |names|
  {
    if |names| > 0 {
      var n := names[0];
      var first := RemoveDir(t, n);
      RemoveDirEntries(t, n);
      RemoveEachFirst(c, t, names);
      RemoveEachByName(c, first.tree, names[1..]);
      ComposeRemovals(Entries(t), Entries(first.tree), Entries(RemoveEach(ByName, c, t, names).tree), names);
    }
  }

  /** RemoveEach by name deletes the first name, then sweeps the rest from there. */
  lemma RemoveEachFirst(c: Config.Config, t: Tree, names: seq<string>)
    requires WellFormed(t) && |names| > 0
    ensures RemoveEach(ByName, c, t, names).tree == RemoveEach(ByName, c, RemoveDir(t, names[0]).tree, names[1..]).tree
  {
  }

  /** Deleting the first name and then the rest deletes every name. */
  lemma ComposeRemovals(e0: seq<VersionEntry>, e1: seq<VersionEntry>, e2: seq<VersionEntry>, names: seq<string>)
    requires |names| > 0
    requires forall e :: e in e1 <==> e in e0 && !(e.name == names[0] && e.removable)
    requires forall e :: e in e2 <==> e in e1 && !(e.name in names[1..] && e.removable)
    ensures forall e :: e in e2 <==> e in e0 && !(e.name in names && e.removable)
  {
    assert forall m :: m in names <==> m == names[0] || m in names[1..] by {
      assert names == [names[0]] + names[1..];
    }
  }

  /** Deleting by name removes exactly the deletable entry of that name. */
  lemma RemoveDirEntries(t: Tree, n: string)
    requires WellFormed(t) && t.versions.Listing?
    ensures RemoveDir(t, n).tree.versions.Listing?
    ensures forall e :: e in Entries(RemoveDir(t, n).tree) <==> e in Entries(t) && !(e.name == n && e.removable)
  {
    match Lookup(Entries(t), n)
    case None =>
    case Some(x) =>
      forall e | e in Entries(t) && e.name == n ensures e == x {
        LookupFinds(Entries(t), e);
      }
  }

  /** Running a sweep over `a + b` is the sweep over `a` followed by the sweep over `b`: no failure stops it. */
  lemma {:induction false} RemoveEachConcat(how: Naming, c: Config.Config, t: Tree, a: seq<string>, b: seq<string>)
    requires WellFormed(t)
    ensures var x := RemoveEach(how, c, t, a); var y := RemoveEach(how, c, x.tree, b);
      RemoveEach(how, c, t, a + b)
        == Sweep(y.tree, x.removed + y.removed, if y.lastError.Some? then y.lastError else x.lastError)
    decreases |a|
  {
    if |a| == 0 {
      assert a + b == b;
    } else {
      assert (a + b)[0] == a[0] && (a + b)[1..] == a[1..] + b;
      var first := RemoveOne(how, c, t, a[0]);
      RemoveEachConcat(how, c, first.tree, a[1..], b);
      RemoveEachStep(how, c, t, a);
      RemoveEachStep(how, c, t, a + b);
    }
  }

  /** A sweep over one name is that one removal, counted when it succeeds. */
  lemma RemoveEachSingle(how: Naming, c: Config.Config, t: Tree, n: string)
    requires WellFormed(t)
    ensures var one := RemoveOne(how, c, t, n);
      RemoveEach(how, c, t, [n]) == Sweep(one.tree, if one.error.None? then 1 else 0, one.error)
  {
    assert [n][1..] == [];
  }

  /** The versions directory has an entry called `n`. */
  predicate Present(t: Tree, n: string) {
    exists e :: e in Entries(t) && e.name == n
  }

  /** The versions directory has an entry called `n` that os.RemoveAll can delete. */
  predicate Deletable(t: Tree, n: string) {
    exists e :: e in Entries(t) && e.name == n && e.removable
  }

  /**
   * On a listed versions directory, deleting `n` by name reports "not
   * cached" when there is no such entry, a failure when it cannot be
   * deleted, and succeeds otherwise.
   */
  lemma RemoveDirOutcome(t: Tree, n: string)
    requires WellFormed(t) && t.versions.Listing?
    ensures RemoveDir(t, n).error ==
              if !Present(t, n) then Some(NotCached(n))
              else if !Deletable(t, n) then Some(RemoveFailed(n))
              else None
  {
    var es := Entries(t);
    match Lookup(es, n)
    case None =>
      forall e | e in es ensures e.name != n {
        var i :| 0 <= i < |es| && es[i] == e;
      }
    case Some(x) =>
      forall e | e in es && e.name == n ensures e == x {
        SameName(es, e, x);
      }
  }

  /** Deleting `n0` by name changes nothing about any other name. */
  lemma RemoveOtherName(t: Tree, n0: string, n: string)
    requires WellFormed(t) && t.versions.Listing? && n != n0
    ensures var t1 := RemoveDir(t, n0).tree;
      && (Deletable(t1, n) <==> Deletable(t, n))
      && RemoveDir(t1, n).error == RemoveDir(t, n).error
  {
    var t1 := RemoveDir(t, n0).tree;
    RemoveDirEntries(t, n0);
    assert Present(t1, n) <==> Present(t, n) by {
      if Present(t, n) {
        var e :| e in Entries(t) && e.name == n;
        assert e in Entries(t1);
      }
    }
    assert Deletable(t1, n) <==> Deletable(t, n) by {
      if Deletable(t, n) {
        var e :| e in Entries(t) && e.name == n && e.removable;
        assert e in Entries(t1);
      }
    }
    RemoveDirOutcome(t, n);
    RemoveDirOutcome(t1, n);
  }

  /** No name is listed twice. */
  predicate UniqueNames(ns: seq<string>) {
    forall i, j :: 0 <= i < j < |ns| ==> ns[i] != ns[j]
  }

  /** The names among `names` whose entries os.RemoveAll can delete. */
  function DeletableNames(t: Tree, names: seq<string>): set<string> {
    set n | n in names && Deletable(t, n)
  }

  /** What deleting each name by itself from `t` would report, in order. */
  function Errors(t: Tree, names: seq<string>): (es: seq<Option<CacheError>>)
    requires WellFormed(t)
    ensures |es| == |names| && forall k :: 0 <= k < |names| ==> es[k] == RemoveDir(t, names[k]).error
  {
    seq(|names|, k requires 0 <= k < |names| => RemoveDir(t, names[k]).error)
  }

  /** `l` is the last error of `errs`, or none when every entry succeeded. */
  predicate LastFailing<E(==)>(errs: seq<Option<E>>, l: Option<E>) {
    && (l.None? <==> forall k :: 0 <= k < |errs| ==> errs[k].None?)
    && (l.Some? ==> exists k :: 0 <= k < |errs| && l == errs[k] && forall j :: k < j < |errs| ==> errs[j].None?)
  }

  /** A failure in front of a sequence is the last one only when nothing after it fails. */
  lemma LastFailingCons<E>(e0: Option<E>, errs: seq<Option<E>>, yl: Option<E>)
    requires LastFailing(errs, yl)
    ensures LastFailing([e0] + errs, if yl.Some? then yl else e0)
  {
    if yl.Some? {
      var k :| 0 <= k < |errs| && yl == errs[k] && forall j :: k < j < |errs| ==> errs[j].None?;
      LaterFailure(e0, errs, k);
    } else {
      EarlierFailure(e0, errs);
    }
  }

  /** A failure at `k` with none after it stays the last failure with something in front. */
  lemma LaterFailure<E>(e0: Option<E>, errs: seq<Option<E>>, k: nat)
    requires k < |errs| && errs[k].Some? && forall j :: k < j < |errs| ==> errs[j].None?
    ensures LastFailing([e0] + errs, errs[k])
  {
    var all := [e0] + errs;
    assert all[k + 1] == errs[k];
    forall j | k + 1 < j < |all| ensures all[j].None? {
      assert all[j] == errs[j - 1];
    }
  }

  /** With no failure after it, the front entry decides. */
  lemma EarlierFailure<E>(e0: Option<E>, errs: seq<Option<E>>)
    requires forall j :: 0 <= j < |errs| ==> errs[j].None?
    ensures LastFailing([e0] + errs, e0)
  {
    var all := [e0] + errs;
    assert all[0] == e0;
    forall j | 0 < j < |all| ensures all[j].None? {
      assert all[j] == errs[j - 1];
    }
  }

  /**
   * Deleting distinct names by their own names tries every one: the count is
   * the number of deletable entries named; there is no error exactly when
   * every name was deletable; otherwise the error is the one the last
   * failing name gives on its own.
   */
  lemma RemoveEachOutcome(c: Config.Config, t: Tree, names: seq<string>)
    requires WellFormed(t) && t.versions.Listing? && UniqueNames(names)
    ensures var r := RemoveEach(ByName, c, t, names);
      && r.removed == |DeletableNames(t, names)|
      && (r.lastError.None? <==> forall k :: 0 <= k < |names| ==> Deletable(t, names[k]))
      && LastFailing(Errors(t, names), r.lastError)
  {
    RemoveEachCounts(c, t, names);
    RemoveEachErrors(c, t, names);
    forall k | 0 <= k < |names| ensures RemoveDir(t, names[k]).error.None? <==> Deletable(t, names[k]) {
      RemoveDirOutcome(t, names[k]);
    }
  }

  /** A sweep by name counts the deletable names. */
  lemma {:induction false} RemoveEachCounts(c: Config.Config, t: Tree, names: seq<string>)
    requires WellFormed(t) && t.versions.Listing? && UniqueNames(names)
    ensures RemoveEach(ByName, c, t, names).removed == |DeletableNames(t, names)|
    decreases |names|
  {
    if |names| == 0 {
      assert DeletableNames(t, names) == {};
    } else {
      var t1 := RemoveDir(t, names[0]).tree;
      TailFacts(t, names);
      RemoveEachCounts(c, t1, names[1..]);
      RemoveDirOutcome(t, names[0]);
      RemoveEachCount(t, t1, names);
    }
  }

  /** A sweep by name reports the last failing name's error. */
  lemma {:induction false} RemoveEachErrors(c: Config.Config, t: Tree, names: seq<string>)
    requires WellFormed(t) && t.versions.Listing? && UniqueNames(names)
    ensures LastFailing(Errors(t, names), RemoveEach(ByName, c, t, names).lastError)
    decreases |names|
  {
    if |names| == 0 {
      assert LastFailing(Errors(t, names), None);
    } else {
      var first := RemoveDir(t, names[0]);
      TailFacts(t, names);
      RemoveEachErrors(c, first.tree, names[1..]);
      var y := RemoveEach(ByName, c, first.tree, names[1..]);
      RemoveEachStep(ByName, c, t, names);
      ErrorsTail(t, first.tree, names);
      LastFailingCons(first.error, Errors(first.tree, names[1..]), y.lastError);
    }
  }

  /** A sweep removes the first name, then sweeps the rest from the tree that leaves. */
  lemma RemoveEachStep(how: Naming, c: Config.Config, t: Tree, names: seq<string>)
    requires WellFormed(t) && |names| > 0
    ensures var first := RemoveOne(how, c, t, names[0]); var y := RemoveEach(how, c, first.tree, names[1..]);
      RemoveEach(how, c, t, names)
        == Sweep(y.tree, y.removed + (if first.error.None? then 1 else 0),
                 if y.lastError.Some? then y.lastError else first.error)
  {
  }

  /** The errors of a list of names: the first one's, then the others' in the tree that follows. */
  lemma ErrorsTail(t: Tree, t1: Tree, names: seq<string>)
    requires WellFormed(t) && WellFormed(t1) && |names| > 0
    requires forall n :: n in names[1..] ==> RemoveDir(t1, n).error == RemoveDir(t, n).error
    ensures Errors(t, names) == [RemoveDir(t, names[0]).error] + Errors(t1, names[1..])
  {
    var es, rs := Errors(t, names), [RemoveDir(t, names[0]).error] + Errors(t1, names[1..]);
    forall k | 0 <= k < |names| ensures es[k] == rs[k] {
      if k > 0 {
        assert names[1..][k - 1] == names[k] && names[k] in names[1..];
      }
    }
  }

  /** After deleting the first of distinct names, the other names behave as before. */
  lemma TailFacts(t: Tree, names: seq<string>)
    requires WellFormed(t) && t.versions.Listing? && UniqueNames(names) && |names| > 0
    ensures var t1 := RemoveDir(t, names[0]).tree; var rest := names[1..];
      && WellFormed(t1) && t1.versions.Listing?
      && UniqueNames(rest) && names[0] !in rest
      && forall n :: n in rest ==> (Deletable(t1, n) <==> Deletable(t, n)) && RemoveDir(t1, n).error == RemoveDir(t, n).error
  {
    var n0, rest := names[0], names[1..];
    RemoveDirEntries(t, n0);
    assert UniqueNames(rest) by {
      forall i, j | 0 <= i < j < |rest| ensures rest[i] != rest[j] {
        assert rest[i] == names[i + 1] && rest[j] == names[j + 1];
      }
    }
    assert n0 !in rest by {
      forall j | 0 <= j < |rest| ensures rest[j] != n0 {
        assert rest[j] == names[j + 1];
      }
    }
    forall n | n in rest
      ensures (Deletable(RemoveDir(t, n0).tree, n) <==> Deletable(t, n))
              && RemoveDir(RemoveDir(t, n0).tree, n).error == RemoveDir(t, n).error {
      RemoveOtherName(t, n0, n);
    }
  }

  /** The count of a sweep: the head, if deletable, plus the deletable names after it. */
  lemma RemoveEachCount(t: Tree, t1: Tree, names: seq<string>)
    requires |names| > 0 && names[0] !in names[1..]
    requires forall n :: n in names[1..] ==> (Deletable(t1, n) <==> Deletable(t, n))
    ensures |DeletableNames(t, names)| == |DeletableNames(t1, names[1..])| + (if Deletable(t, names[0]) then 1 else 0)
  {
    var n0, rest := names[0], names[1..];
    assert forall n :: n in names <==> n == n0 || n in rest by {
      assert names == [n0] + rest;
    }
    assert DeletableNames(t1, rest) == DeletableNames(t, rest);
    assert n0 !in DeletableNames(t, rest);
    if Deletable(t, n0) {
      assert DeletableNames(t, names) == {n0} + DeletableNames(t, rest);
    } else {
      assert DeletableNames(t, names) == DeletableNames(t, rest);
    }
  }

  /** The names of a list of reports, in order. */
  function Names(vs: seq<CachedVersion>): (ns: seq<string>)
    ensures |ns| == |vs| && forall i :: 0 <= i < |vs| ==> ns[i] == vs[i].version
  {
    seq(|vs|, i requires 0 <= i < |vs| => vs[i].version)
  }

  /** RemoveAll: removes every listed version; a listing failure is returned as is. */
  function RemoveAll(how: Naming, c: Config.Config, t: Tree): (r: Sweep)
    requires WellFormed(t)
    ensures List(c, t).Err? ==> r == Sweep(t, 0, Some(ListFailed))
    ensures List(c, t).Ok? ==> r.removed <= |List(c, t).value|
    ensures List(c, t).Ok? ==> (r.lastError.None? <==> r.removed == |List(c, t).value|)
  {
    match List(c, t)
    case Err(e) => Sweep(t, 0, Some(e))
    case Ok(vs) => RemoveEach(how, c, t, Names(vs))
  }

  /**
   * RemoveOldest: a negative `keep` is refused; with at most `keep` versions
   * nothing happens; otherwise the versions after the first `keep` in List
   * order are removed.
   */
  function RemoveOldest(how: Naming, c: Config.Config, t: Tree, keep: int): (r: Sweep)
    requires WellFormed(t)
    ensures keep < 0 ==> r == Sweep(t, 0, Some(InvalidKeep))
    ensures keep >= 0 && List(c, t).Ok? && |List(c, t).value| <= keep ==> r == Sweep(t, 0, None)
    ensures keep >= 0 && List(c, t).Err? ==> r == Sweep(t, 0, Some(ListFailed))
    ensures keep >= 0 && List(c, t).Ok? && |List(c, t).value| > keep ==>
              && r.removed <= |List(c, t).value| - keep
              && (r.lastError.None? <==> r.removed == |List(c, t).value| - keep)
  {
    if keep < 0 then Sweep(t, 0, Some(InvalidKeep))
    else match List(c, t)
      case Err(e) => Sweep(t, 0, Some(e))
      case Ok(vs) =>
        if |vs| <= keep then Sweep(t, 0, None)
        else RemoveEach(how, c, t, Names(vs[keep..]))
  }

  /** The names of the reports whose binary is missing or not executable, in order. */
  function IncompleteNames(vs: seq<CachedVersion>): (ns: seq<string>)
    ensures forall n :: n in ns <==> exists v :: v in vs && !v.isComplete && v.version == n
  {
    if |vs| == 0 then []
    else
      var rest := IncompleteNames(vs[1..]);
      assert forall v :: v in vs <==> v == vs[0] || v in vs[1..];
      if vs[0].isComplete then rest else [vs[0].version] + rest
  }

  /** RemoveIncomplete: removes every listed version whose binary is missing or not executable. */
  function RemoveIncomplete(how: Naming, c: Config.Config, t: Tree): (r: Sweep)
    requires WellFormed(t)
    ensures List(c, t).Err? ==> r == Sweep(t, 0, Some(ListFailed))
    ensures List(c, t).Ok? ==> var ns := IncompleteNames(List(c, t).value);
              r.removed <= |ns| && (r.lastError.None? <==> r.removed == |ns|)
  {
    match List(c, t)
    case Err(e) => Sweep(t, 0, Some(e))
    case Ok(vs) => RemoveEach(how, c, t, IncompleteNames(vs))
  }

  /** An entry's name is among the listed names exactly when the entry is a directory. */
  lemma ListedNames(c: Config.Config, t: Tree, e: VersionEntry)
    requires WellFormed(t) && t.versions.Listing? && e in Entries(t)
    ensures var vs := List(c, t).value;
      && (e.isDir ==> exists i :: 0 <= i < |vs| && vs[i] == EntryOf(c, t, e))
      && (forall i :: 0 <= i < |vs| && vs[i].version == e.name ==> e.isDir && vs[i] == EntryOf(c, t, e))
  {
    var vs := List(c, t).value;
    ListContents(c, t);
    forall i | 0 <= i < |vs| && vs[i].version == e.name ensures e.isDir && vs[i] == EntryOf(c, t, e) {
      assert vs[i] in vs;
      var x :| x in Entries(t) && x.isDir && vs[i] == EntryOf(c, t, x);
      SameName(Entries(t), x, e);
    }
  }

  /** RemoveAll by name deletes every deletable version directory and keeps everything else. */
  lemma RemoveAllSpec(c: Config.Config, t: Tree)
    requires WellFormed(t) && t.versions.Listing?
    ensures var r := RemoveAll(ByName, c, t);
      forall e :: e in Entries(r.tree) <==> e in Entries(t) && !(e.isDir && e.removable)
  {
    var vs := List(c, t).value;
    var ns := Names(vs);
    assert RemoveAll(ByName, c, t) == RemoveEach(ByName, c, t, ns);
    RemoveEachByName(c, t, ns);
    forall e | e in Entries(t) ensures e.name in ns <==> e.isDir {
      ListedNames(c, t, e);
      if e.name in ns {
        var i :| 0 <= i < |ns| && ns[i] == e.name;
      }
    }
  }

  /** Distinct versions have distinct names. */
  lemma NamesUnique(vs: seq<CachedVersion>)
    requires DistinctVersions(vs)
    ensures UniqueNames(Names(vs))
  {
  }

  /** The incomplete versions of distinct versions have distinct names. */
  lemma {:induction false} IncompleteUnique(vs: seq<CachedVersion>)
    requires DistinctVersions(vs)
    ensures UniqueNames(IncompleteNames(vs))
    decreases |vs|
  {
    if |vs| > 0 {
      var rest := IncompleteNames(vs[1..]);
      assert DistinctVersions(vs[1..]) by {
        forall i, j | 0 <= i < j < |vs| - 1 ensures vs[1..][i].version != vs[1..][j].version {
          assert vs[1..][i] == vs[i + 1] && vs[1..][j] == vs[j + 1];
        }
      }
      IncompleteUnique(vs[1..]);
      if !vs[0].isComplete {
        assert vs[0].version !in rest by {
          forall v | v in vs[1..] ensures v.version != vs[0].version {
            var j :| 0 <= j < |vs[1..]| && vs[1..][j] == v;
            assert vs[j + 1] == v;
          }
        }
        var ns := [vs[0].version] + rest;
        forall i, j | 0 <= i < j < |ns| ensures ns[i] != ns[j] {
          assert ns[j] == rest[j - 1];
          if i > 0 { assert ns[i] == rest[i - 1]; } else { assert rest[j - 1] in rest; }
        }
      }
    }
  }

  /**
   * RemoveAll by name counts one success per deletable version directory,
   * and returns the error of the last version that could not be deleted.
   */
  lemma RemoveAllCount(c: Config.Config, t: Tree)
    requires WellFormed(t) && t.versions.Listing?
    ensures var r := RemoveAll(ByName, c, t); var ns := Names(List(c, t).value);
      && DeletableNames(t, ns) == (set e | e in Entries(t) && e.isDir && e.removable :: e.name)
      && r.removed == |DeletableNames(t, ns)|
      && LastFailing(Errors(t, ns), r.lastError)
  {
    var vs := List(c, t).value;
    var ns := Names(vs);
    ListContents(c, t);
    NamesUnique(vs);
    RemoveEachOutcome(c, t, ns);
    forall e | e in Entries(t) ensures e.name in ns <==> e.isDir {
      ListedNames(c, t, e);
      if e.name in ns {
        var i :| 0 <= i < |ns| && ns[i] == e.name;
      }
    }
    DeletableDirNames(t, ns);
  }

  /** The deletable listed names are the names of the deletable directories. */
  lemma DeletableDirNames(t: Tree, ns: seq<string>)
    requires forall e :: e in Entries(t) ==> (e.name in ns <==> e.isDir)
    ensures DeletableNames(t, ns) == (set e | e in Entries(t) && e.isDir && e.removable :: e.name)
  {
    var lhs := DeletableNames(t, ns);
    var rhs := set e | e in Entries(t) && e.isDir && e.removable :: e.name;
    forall n | n in lhs ensures n in rhs {
      var e :| e in Entries(t) && e.name == n && e.removable;
    }
  }

  /**
   * RemoveOldest by name counts one success per deletable version after the
   * first `keep`, and returns the error of the last one that failed.
   */
  lemma RemoveOldestCount(c: Config.Config, t: Tree, keep: nat)
    requires WellFormed(t) && t.versions.Listing? && |List(c, t).value| > keep
    ensures var r := RemoveOldest(ByName, c, t, keep); var ns := Names(List(c, t).value[keep..]);
      && r.removed == |DeletableNames(t, ns)|
      && LastFailing(Errors(t, ns), r.lastError)
  {
    var vs := List(c, t).value;
    ListContents(c, t);
    assert DistinctVersions(vs[keep..]) by {
      forall i, j | 0 <= i < j < |vs| - keep ensures vs[keep..][i].version != vs[keep..][j].version {
        assert vs[keep..][i] == vs[keep + i] && vs[keep..][j] == vs[keep + j];
      }
    }
    NamesUnique(vs[keep..]);
    RemoveOldestSweeps(ByName, c, t, keep, vs);
    RemoveEachOutcome(c, t, Names(vs[keep..]));
  }

  /**
   * RemoveIncomplete by name counts one success per deletable incomplete
   * version, and returns the error of the last one that failed.
   */
  lemma RemoveIncompleteCount(c: Config.Config, t: Tree)
    requires WellFormed(t) && t.versions.Listing?
    ensures var r := RemoveIncomplete(ByName, c, t); var ns := IncompleteNames(List(c, t).value);
      && r.removed == |DeletableNames(t, ns)|
      && LastFailing(Errors(t, ns), r.lastError)
  {
    var vs := List(c, t).value;
    ListContents(c, t);
    IncompleteUnique(vs);
    RemoveEachOutcome(c, t, IncompleteNames(vs));
  }

  /**
   * RemoveOldest by name keeps every version among the first `keep` in List
   * order and deletes each deletable one after them.
   */
  lemma RemoveOldestSpec(c: Config.Config, t: Tree, keep: nat)
    requires WellFormed(t) && t.versions.Listing? && |List(c, t).value| > keep
    ensures var vs := List(c, t).value; var r := RemoveOldest(ByName, c, t, keep);
      && (forall i :: 0 <= i < keep ==> exists e :: e in Entries(r.tree) && e.name == vs[i].version)
      && (forall i, e :: keep <= i < |vs| && e in Entries(t) && e.name == vs[i].version ==>
            (e in Entries(r.tree) <==> !e.removable))
      && (forall e :: e in Entries(r.tree) ==> e in Entries(t))
  {
    var vs := List(c, t).value;
    var r := RemoveOldest(ByName, c, t, keep);
    RemoveOldestSweeps(ByName, c, t, keep, vs);
    RemoveEachByName(c, t, Names(vs[keep..]));
    ListContents(c, t);
    ListedDirs(c, t, vs);
    SweepKeeps(vs, keep, Entries(t), Entries(r.tree));
  }

  /**
   * Deleting the deletable entries named after position `keep` leaves one
   * entry for each of the first `keep` versions and decides every later one
   * by its deletability alone.
   */
  lemma SweepKeeps(vs: seq<CachedVersion>, keep: nat, before: seq<VersionEntry>, after: seq<VersionEntry>)
    requires DistinctVersions(vs) && keep <= |vs|
    requires forall e :: e in after <==> e in before && !(e.name in Names(vs[keep..]) && e.removable)
    requires forall i :: 0 <= i < |vs| ==> exists e :: e in before && e.name == vs[i].version
    ensures forall i :: 0 <= i < keep ==> exists e :: e in after && e.name == vs[i].version
    ensures forall i, e :: keep <= i < |vs| && e in before && e.name == vs[i].version ==>
              (e in after <==> !e.removable)
    ensures forall e :: e in after ==> e in before
  {
    NamesAfter(vs, keep);
    forall i | 0 <= i < keep ensures exists e :: e in after && e.name == vs[i].version {
      assert 0 <= i < |vs|;
      var v := vs[i];
      assert exists e :: e in before && e.name == v.version;
      var e :| e in before && e.name == vs[i].version;
      assert vs[i].version !in Names(vs[keep..]);
      assert e in after;
    }
    assert forall e :: e in after ==> e in before;
  }

  /** Every listed version names an entry of the tree. */
  lemma ListedDirs(c: Config.Config, t: Tree, vs: seq<CachedVersion>)
    requires List(c, t) == Ok(vs)
    ensures forall i :: 0 <= i < |vs| ==> exists e :: e in Entries(t) && e.name == vs[i].version
  {
    forall i | 0 <= i < |vs| ensures exists e :: e in Entries(t) && e.name == vs[i].version {
      var e := ListedDir(c, t, vs, i);
    }
  }

  /** With distinct versions, the names after position `keep` are exactly the versions listed there. */
  lemma NamesAfter(vs: seq<CachedVersion>, keep: nat)
    requires DistinctVersions(vs) && keep <= |vs|
    ensures forall i :: 0 <= i < keep ==> vs[i].version !in Names(vs[keep..])
    ensures forall i :: keep <= i < |vs| ==> vs[i].version in Names(vs[keep..])
  {
    var gone := Names(vs[keep..]);
    assert forall j :: 0 <= j < |gone| ==> gone[j] == vs[keep + j].version;
  }

  /** Every listed version names a directory of the tree. */
  lemma ListedDir(c: Config.Config, t: Tree, vs: seq<CachedVersion>, i: nat) returns (e: VersionEntry)
    requires List(c, t) == Ok(vs) && i < |vs|
    ensures e in Entries(t) && e.name == vs[i].version
  {
    ListContents(c, t);
    assert vs[i] in vs;
    e :| e in Entries(t) && e.isDir && vs[i] == EntryOf(c, t, e);
  }

  /** RemoveIncomplete by name never deletes a version whose binary is in place. */
  lemma RemoveIncompleteSpec(c: Config.Config, t: Tree)
    requires WellFormed(t) && t.versions.Listing?
    ensures var r := RemoveIncomplete(ByName, c, t);
      forall e :: e in Entries(t) && e.isDir ==>
        (e in Entries(r.tree) <==> Config.BinaryExists(c, t, e.name) || !e.removable)
  {
    var vs := List(c, t).value;
    var ns := IncompleteNames(vs);
    ListContents(c, t);
    RemoveEachByName(c, t, ns);
    forall e | e in Entries(t) && e.isDir ensures e.name in ns <==> !Config.BinaryExists(c, t, e.name) {
      assert EntryOf(c, t, e) in vs;
      if e.name in ns {
        var v :| v in vs && !v.isComplete && v.version == e.name;
        var x :| x in Entries(t) && x.isDir && v == EntryOf(c, t, x);
        assert x == e;
      }
    }
  }

  /** Two reports sort by a single comparison. */
  lemma SortTwo(a: CachedVersion, b: CachedVersion)
    ensures Sort([a, b]) == if Less(b, a) then [b, a] else [a, b]
  {
    assert [a, b][1..] == [b];
    assert Sort([b]) == [b] by { assert [b][1..] == []; }
    assert Insert(a, [b]) == (if Less(b, a) then [b] + Insert(a, []) else [a, b]);
  }

  /** The versions directory of the first counterexample: "abc", then the newer "vabc", neither with a binary. */
  function StaleTree(): Tree {
    Tree("linux", Listing([VersionEntry("abc", true, 1, map[], true), VersionEntry("vabc", true, 2, map[], true)]), map[])
  }

  lemma StaleTreeList(c: Config.Config)
    ensures var t := StaleTree(); var es := Entries(t);
      List(c, t) == Ok([EntryOf(c, t, es[1]), EntryOf(c, t, es[0])])
  {
    var t := StaleTree();
    var es := Entries(t);
    var a, b := EntryOf(c, t, es[0]), EntryOf(c, t, es[1]);
    StaleCollect(c);
    StaleEntries(c);
    assert Less(b, a);
    SortTwo(a, b);
    assert List(c, t) == Ok(Sort([a, b]));
  }

  /** Both entries of the first counterexample are directories, reported in listing order before sorting. */
  lemma StaleCollect(c: Config.Config)
    ensures var t := StaleTree(); var es := Entries(t);
      Collect(c, t, es) == [EntryOf(c, t, es[0]), EntryOf(c, t, es[1])]
  {
    var t := StaleTree();
    var es := Entries(t);
    assert Dirs(es) == es by {
      assert es[1..] == [es[1]];
      assert Dirs([es[1]]) == [es[1]] by { assert [es[1]][1..] == []; }
    }
  }

  /** Neither name of the first counterexample parses, and neither directory holds a binary. */
  lemma StaleEntries(c: Config.Config)
    ensures var t := StaleTree(); var es := Entries(t);
      && EntryOf(c, t, es[0]).parsed.None? && EntryOf(c, t, es[0]).modTime == 1
      && EntryOf(c, t, es[1]).parsed.None? && EntryOf(c, t, es[1]).modTime == 2
  {
    var t := StaleTree();
    var es := Entries(t);
    assert Patterns.DigitRunEnd("abc", 0) == 0;
    assert Patterns.DigitRunEnd("vabc", 1) == 1;
    assert Config.StatBinary(c, t, "abc").None?;
    assert Config.StatBinary(c, t, "vabc").None? by {
      assert es[1..] == [es[1]];
    }
  }

  /**
   * As written, RemoveOldest can delete a version it was told to keep: with
   * one version kept, the newer "vabc" is deleted because the listed "abc"
   * normalizes to it, and "abc" itself survives.
   */
  lemma RemoveOldestDeletesKept(c: Config.Config)
    ensures List(c, StaleTree()).Ok? && List(c, StaleTree()).value[0].version == "vabc"
    ensures Entries(RemoveOldest(Renormalized, c, StaleTree(), 1).tree) == [Entries(StaleTree())[0]]
  {
    StaleFirst(c);
    StaleOldest(c);
  }

  /** List puts "vabc", the more recently modified, first. */
  lemma StaleFirst(c: Config.Config)
    ensures List(c, StaleTree()).Ok? && List(c, StaleTree()).value[0].version == "vabc"
  {
    StaleTreeList(c);
  }

  /** Keeping one version sweeps the listed name "abc", which deletes "vabc". */
  lemma StaleOldest(c: Config.Config)
    ensures Entries(RemoveOldest(Renormalized, c, StaleTree(), 1).tree) == [Entries(StaleTree())[0]]
  {
    StaleListsAbcSecond(c);
    StaleRemoveStep(c);
    KeepOneOfTwo(Renormalized, c, StaleTree(), "abc");
  }

  /** List reports "abc" second. */
  lemma StaleListsAbcSecond(c: Config.Config)
    ensures List(c, StaleTree()).Ok? && |List(c, StaleTree()).value| == 2
    ensures List(c, StaleTree()).value[1].version == "abc"
  {
    StaleTreeList(c);
  }

  /** Keeping one of two listed versions sweeps exactly the second one's name. */
  lemma KeepOneOfTwo(how: Naming, c: Config.Config, t: Tree, second: string)
    requires WellFormed(t) && List(c, t).Ok? && |List(c, t).value| == 2 && List(c, t).value[1].version == second
    ensures RemoveOldest(how, c, t, 1) == RemoveEach(how, c, t, [second])
  {
    var vs := List(c, t).value;
    RemoveOldestSweeps(how, c, t, 1, vs);
    assert Names(vs[1..]) == [second];
  }

  /** With more than `keep` versions listed, RemoveOldest sweeps the names after the first `keep`. */
  lemma RemoveOldestSweeps(how: Naming, c: Config.Config, t: Tree, keep: nat, vs: seq<CachedVersion>)
    requires WellFormed(t) && List(c, t) == Ok(vs) && |vs| > keep
    ensures RemoveOldest(how, c, t, keep) == RemoveEach(how, c, t, Names(vs[keep..]))
  {
  }

  /** Removing "abc" as written deletes the directory "vabc". */
  lemma StaleRemoveStep(c: Config.Config)
    ensures Entries(RemoveEach(Renormalized, c, StaleTree(), ["abc"]).tree) == [Entries(StaleTree())[0]]
  {
    var t := StaleTree();
    var es := Entries(t);
    assert Config.NormalizeVersion("abc") == "vabc";
    assert Without(es, "vabc") == [es[0]] by {
      assert es[1..] == [es[1]];
      assert Without([es[1]], "vabc") == [] by { assert [es[1]][1..] == []; }
    }
    var step := Remove(c, t, "abc");
    assert step.tree.versions == Listing([es[0]]);
    assert ["abc"][1..] == [];
  }

  /** The versions directory of the second counterexample: "1.2.3" without a binary, "v1.2.3" with one. */
  function MixedTree(): Tree {
    Tree("linux", Listing([VersionEntry("1.2.3", true, 1, map[], true),
                           VersionEntry("v1.2.3", true, 1, map["golangci-lint" := FileInfo(true, true, 10, 1)], true)]), map[])
  }

  lemma MixedTreeList(c: Config.Config)
    requires c.os != Config.Windows
    ensures var t := MixedTree(); var es := Entries(t);
      && !Config.BinaryExists(c, t, "1.2.3") && Config.BinaryExists(c, t, "v1.2.3")
      && List(c, t).Ok? && IncompleteNames(List(c, t).value) == ["1.2.3"]
  {
    var t := MixedTree();
    var es := Entries(t);
    MixedEntries(c);
    var a, b := EntryOf(c, t, es[0]), EntryOf(c, t, es[1]);
    MixedCollect(c);
    SortTwo(a, b);
    assert List(c, t) == Ok(Sort([a, b]));
    assert IncompleteNames([a]) == ["1.2.3"] by { assert [a][1..] == []; }
    assert IncompleteNames([b]) == [] by { assert [b][1..] == []; }
    assert [a, b][1..] == [b] && [b, a][1..] == [a];
  }

  /** Only "v1.2.3" of the second counterexample holds an executable binary. */
  lemma MixedEntries(c: Config.Config)
    requires c.os != Config.Windows
    ensures var t := MixedTree(); var es := Entries(t);
      && !Config.BinaryExists(c, t, "1.2.3") && Config.BinaryExists(c, t, "v1.2.3")
      && !EntryOf(c, t, es[0]).isComplete && EntryOf(c, t, es[1]).isComplete
      && EntryOf(c, t, es[0]).version == "1.2.3"
  {
    var t := MixedTree();
    var es := Entries(t);
    assert Config.BinaryName(c.os) == "golangci-lint";
    assert Lookup(es, "1.2.3") == Some(es[0]);
    assert Lookup(es, "v1.2.3") == Some(es[1]) by {
      assert es[1..] == [es[1]];
    }
  }

  /** Both entries of the second counterexample are directories, reported in listing order before sorting. */
  lemma MixedCollect(c: Config.Config)
    ensures var t := MixedTree(); var es := Entries(t);
      Collect(c, t, es) == [EntryOf(c, t, es[0]), EntryOf(c, t, es[1])]
  {
    var t := MixedTree();
    var es := Entries(t);
    assert Dirs(es) == es by {
      assert es[1..] == [es[1]];
      assert Dirs([es[1]]) == [es[1]] by { assert [es[1]][1..] == []; }
    }
  }

  /** Removing "1.2.3" as written deletes the complete "v1.2.3". */
  lemma MixedRemoveStep(c: Config.Config)
    ensures Entries(RemoveEach(Renormalized, c, MixedTree(), ["1.2.3"]).tree) == [Entries(MixedTree())[0]]
  {
    var t := MixedTree();
    var es := Entries(t);
    assert Config.NormalizeVersion("1.2.3") == "v1.2.3";
    assert Without(es, "v1.2.3") == [es[0]] by {
      assert es[1..] == [es[1]];
      assert Without([es[1]], "v1.2.3") == [] by { assert [es[1]][1..] == []; }
    }
    var step := Remove(c, t, "1.2.3");
    assert step.tree.versions == Listing([es[0]]);
    assert ["1.2.3"][1..] == [];
  }

  /**
   * As written, RemoveIncomplete can delete a complete version: the
   * incomplete "1.2.3" normalizes to the complete "v1.2.3", which is
   * deleted while "1.2.3" stays.
   */
  lemma RemoveIncompleteDeletesComplete(c: Config.Config)
    requires c.os != Config.Windows
    ensures Config.BinaryExists(c, MixedTree(), "v1.2.3")
    ensures Entries(RemoveIncomplete(Renormalized, c, MixedTree()).tree) == [Entries(MixedTree())[0]]
  {
    MixedTreeList(c);
    MixedRemoveStep(c);
  }


  /** The versions directory of the third counterexample: one deletable directory "1.2.3", without the "v". */
  function BareTree(): Tree {
    Tree("linux", Listing([VersionEntry("1.2.3", true, 1, map[], true)]), map[])
  }

  /**
   * As written, RemoveAll cannot delete a directory whose name lacks the
   * "v": the listed "1.2.3" normalizes to "v1.2.3", which is not cached, so
   * nothing is removed and "not cached" is returned.
   */
  lemma RemoveAllMissesBareName(c: Config.Config)
    ensures List(c, BareTree()).Ok? && Names(List(c, BareTree()).value) == ["1.2.3"]
    ensures RemoveAll(Renormalized, c, BareTree()) == Sweep(BareTree(), 0, Some(NotCached("v1.2.3")))
  {
    BareTreeList(c);
    BareRemoveStep(c);
  }

  /** By name, the same sweep deletes the directory and counts it. */
  lemma RemoveAllByNameDeletesBare(c: Config.Config)
    ensures RemoveAll(ByName, c, BareTree()) == Sweep(BareTree().(versions := Listing([])), 1, None)
  {
    var t := BareTree();
    BareTreeList(c);
    RemoveEachSingle(ByName, c, t, "1.2.3");
    assert Without(Entries(t), "1.2.3") == [];
  }

  /** The third counterexample lists exactly the name "1.2.3". */
  lemma BareTreeList(c: Config.Config)
    ensures List(c, BareTree()).Ok? && Names(List(c, BareTree()).value) == ["1.2.3"]
  {
    var t := BareTree();
    var a := EntryOf(c, t, Entries(t)[0]);
    BareCollect(c);
    assert Sort([a]) == [a];
  }

  /** The one entry of the third counterexample is a directory. */
  lemma BareCollect(c: Config.Config)
    ensures var t := BareTree(); Collect(c, t, Entries(t)) == [EntryOf(c, t, Entries(t)[0])]
  {
    var es := Entries(BareTree());
    assert Dirs(es) == es by { assert es[1..] == []; }
  }

  /** Removing "1.2.3" as written looks for "v1.2.3", which is not there. */
  lemma BareRemoveStep(c: Config.Config)
    ensures RemoveEach(Renormalized, c, BareTree(), ["1.2.3"]) == Sweep(BareTree(), 0, Some(NotCached("v1.2.3")))
  {
    var t := BareTree();
    var es := Entries(t);
    assert Config.NormalizeVersion("1.2.3") == "v1.2.3";
    assert Lookup(es, "v1.2.3").None? by { assert es[1..] == []; }
    assert ["1.2.3"][1..] == [];
  }

  // ---------------------------------------------------------------------
  // Size, directories, status
  // ---------------------------------------------------------------------

  function SumSizes(vs: seq<CachedVersion>): nat {
    if |vs| == 0 then 0 else vs[0].size + SumSizes(vs[1..])
  }

  /** Reordering a list does not change its total size. */
  lemma {:induction false} SumSizesPermutation(a: seq<CachedVersion>, b: seq<CachedVersion>)
    requires multiset(a) == multiset(b)
    ensures SumSizes(a) == SumSizes(b)
    decreases |a|
  {
    if |a| > 0 {
      var x := a[0];
      MultisetTail(a);
      var i := IndexOf(b, x);
      var b' := b[..i] + b[i + 1..];
      MultisetWithout(b, i);
      SumSizesPermutation(a[1..], b');
      SumSizesWithout(b, i);
    }
  }

  /** Dropping the head takes one copy of it out of the multiset. */
  lemma MultisetTail<T>(a: seq<T>)
    requires |a| > 0
    ensures multiset(a[1..]) == multiset(a) - multiset{a[0]}
  {
    assert a == [a[0]] + a[1..];
  }

  /** A position holding `x`, for an `x` the list holds. */
  lemma IndexOf<T>(b: seq<T>, x: T) returns (i: nat)
    requires x in multiset(b)
    ensures i < |b| && b[i] == x
  {
    i :| 0 <= i < |b| && b[i] == x;
  }

  /** Taking out the element at `i` takes one copy of it out of the multiset. */
  lemma MultisetWithout<T>(b: seq<T>, i: nat)
    requires i < |b|
    ensures multiset(b[..i] + b[i + 1..]) == multiset(b) - multiset{b[i]}
  {
    assert b == b[..i] + [b[i]] + b[i + 1..];
  }

  /** Taking out the element at `i` takes its size out of the total. */
  lemma SumSizesWithout(b: seq<CachedVersion>, i: nat)
    requires i < |b|
    ensures SumSizes(b) == b[i].size + SumSizes(b[..i] + b[i + 1..])
  {
    var left, right := b[..i], b[i + 1..];
    assert left + b[i..] == b;
    SumSizesSplit(left, b[i..]);
    SumSizesDrop(b, i);
    SumSizesSplit(left, right);
  }

  /** The total of a suffix is its first size plus the total of the rest. */
  lemma SumSizesDrop(b: seq<CachedVersion>, i: nat)
    requires i < |b|
    ensures SumSizes(b[i..]) == b[i].size + SumSizes(b[i + 1..])
  {
    assert b[i..][1..] == b[i + 1..];
  }

  lemma {:induction false} SumSizesSplit(a: seq<CachedVersion>, b: seq<CachedVersion>)
    ensures SumSizes(a + b) == SumSizes(a) + SumSizes(b)
    decreases |a|
  {
    if |a| > 0 {
      SumSizesSplit(a[1..], b);
      assert (a + b)[0] == a[0];
      assert (a + b)[1..] == a[1..] + b;
    } else {
      assert a + b == b;
    }
  }

  /** GetTotalSize: the sum of the reported sizes; a listing failure is returned as is. */
  function GetTotalSize(c: Config.Config, t: Tree): (r: Result<nat, CacheError>)
    ensures r.Err? <==> t.versions.Unreadable?
    ensures r.Ok? ==> r.value == SumSizes(Collect(c, t, Entries(t)))
  {
    match List(c, t)
    case Err(e) => Err(e)
    case Ok(vs) =>
      SumSizesPermutation(vs, Collect(c, t, Entries(t)));
      Ok(SumSizes(vs))
  }

  /**
   * CacheManager.EnsureVersionDir as written: it wraps the configuration's
   * result with %w and returns that wrapper, which is never nil, so it
   * reports an error even when the directory was created.
   */
  function EnsureVersionDirAsWritten(t: Tree, version: string, now: int, f: Faults): (r: Removal)
    requires WellFormed(t)
    ensures r.error.Some?
    ensures r.tree == Config.EnsureVersionDir(t, version, now, f).tree
  {
    var s := Config.EnsureVersionDir(t, version, now, f);
    Removal(s.tree, Some(EnsureDirError(s.error)))
  }

  /** As written, EnsureVersionDir fails even when the directory exists afterwards. */
  lemma EnsureVersionDirAlwaysFails(t: Tree, version: string, now: int)
    requires WellFormed(t) && t.versions.Listing?
    requires Lookup(Entries(t), version).None?
    ensures var r := EnsureVersionDirAsWritten(t, version, now, Faults(false, false));
      && r.error.Some?
      && exists e :: e in Entries(r.tree) && e.name == version && e.isDir
  {
  }

  /** EnsureVersionDir reporting an error only when the configuration's step failed. */
  function EnsureVersionDir(t: Tree, version: string, now: int, f: Faults): (r: Removal)
    requires WellFormed(t)
    ensures WellFormed(r.tree)
    ensures r.error.None? <==> Config.EnsureVersionDir(t, version, now, f).error.None?
    ensures r.error.None? ==> exists e :: e in Entries(r.tree) && e.name == version && e.isDir
    ensures r.error.Some? ==> r.tree == t
  {
    var s := Config.EnsureVersionDir(t, version, now, f);
    Removal(s.tree, if s.error.None? then None else Some(EnsureDirError(s.error)))
  }

  /** IsCached: the version's binary is in place and executable. */
  predicate IsCached(c: Config.Config, t: Tree, version: string) {
    Config.BinaryExists(c, t, version)
  }

  /** A cached version is listed, and listed as complete. */
  lemma CachedIsListedComplete(c: Config.Config, t: Tree, version: string)
    requires WellFormed(t) && IsCached(c, t, version)
    ensures List(c, t).Ok?
    ensures exists v :: v in List(c, t).value && v.version == version && v.isComplete
  {
    var info := Config.StatBinary(c, t, version);
    var e :| e in Entries(t) && e.name == version && e.isDir
             && Config.BinaryName(c.os) in e.files && e.files[Config.BinaryName(c.os)] == info.value;
    ListContents(c, t);
    assert EntryOf(c, t, e) in List(c, t).value;
  }
}
