/**
 * An abstract picture of the cache tree on disk: the `versions` directory
 * with one entry per installed version, and the `current` directory holding
 * the activation pointer. Permission bits, stat and symlink system calls and
 * time values are reduced to the flags and integers the program inspects.
 */
module Disk {
  import opened Wrappers

  /** What os.Stat reports about a file: its kind, whether some execute bit is set, its size and modification time. */
  datatype FileInfo = FileInfo(regular: bool, execBits: bool, size: nat, modTime: int)

  /**
   * One entry of the versions directory. `files` are the files inside it
   * (meaningful only when `isDir`); `removable` is false when os.RemoveAll
   * would fail on it (for example, for lack of permission).
   */
  datatype VersionEntry = VersionEntry(
    name: string,
    isDir: bool,
    modTime: int,
    files: map<string, FileInfo>,
    removable: bool)

  /** The versions directory: missing, present but unreadable, or listed in os.ReadDir order. */
  datatype Versions = Absent | Unreadable | Listing(entries: seq<VersionEntry>)

  /** A file inside the `current` directory: a symbolic link, or something that is not one. */
  datatype Pointer = Symlink(target: string) | NotLink

  /**
   * The cache tree. `hostOS` is the operating system the program runs on
   * (Go's runtime.GOOS), which decides whether execute bits are checked.
   */
  datatype Tree = Tree(hostOS: string, versions: Versions, current: map<string, Pointer>)

  /** Faults the operating system may report when creating directories and links. */
  datatype Faults = Faults(mkdirFails: bool, symlinkFails: bool)

  /** Directory entry names are unique. */
  predicate DistinctNames(es: seq<VersionEntry>) {
    forall i, j :: 0 <= i < j < |es| ==> es[i].name != es[j].name
  }

  predicate WellFormed(t: Tree) {
    t.versions.Listing? ==> DistinctNames(t.versions.entries)
  }

  /** The entries of the versions directory, empty when it cannot be listed. */
  function Entries(t: Tree): seq<VersionEntry>
  {
    if t.versions.Listing? then t.versions.entries else []
  }

  /** The entry called `name`, if the versions directory has one. */
  function Lookup(es: seq<VersionEntry>, name: string): (r: Option<VersionEntry>)
    ensures r.Some? ==> r.value in es && r.value.name == name
    ensures r.None? ==> forall i :: 0 <= i < |es| ==> es[i].name != name
  {
    if |es| == 0 then None
    else if es[0].name == name then Some(es[0])
    else Lookup(es[1..], name)
  }

  /** With unique names, looking up an entry's name finds that entry. */
  lemma LookupFinds(es: seq<VersionEntry>, e: VersionEntry)
    requires DistinctNames(es) && e in es
    ensures Lookup(es, e.name) == Some(e)
  {
    var r := Lookup(es, e.name);
    var j :| 0 <= j < |es| && es[j] == e;
    var i :| 0 <= i < |es| && es[i] == r.value;
  }

  /** With unique names, two entries with the same name are the same entry. */
  lemma SameName(es: seq<VersionEntry>, x: VersionEntry, y: VersionEntry)
    requires DistinctNames(es) && x in es && y in es && x.name == y.name
    ensures x == y
  {
    LookupFinds(es, x);
    LookupFinds(es, y);
  }

  /** The entries without the one called `name`. */
  function Without(es: seq<VersionEntry>, name: string): (r: seq<VersionEntry>)
    ensures forall e :: e in r <==> e in es && e.name != name
    ensures |r| <= |es|
    ensures DistinctNames(es) ==> DistinctNames(r)
  {
    if |es| == 0 then []
    else if es[0].name == name then Without(es[1..], name)
    else
      var rest := Without(es[1..], name);
      assert forall e :: e in rest ==> e in es[1..];
      [es[0]] + rest
  }

  /** The entries with the one called `e.name` replaced by `e`, or `e` added at the end. */
  function Put(es: seq<VersionEntry>, e: VersionEntry): (r: seq<VersionEntry>)
    ensures e in r
    ensures forall x :: x in r ==> x == e || (x in es && x.name != e.name)
    ensures forall x :: x in es && x.name != e.name ==> x in r
    ensures DistinctNames(es) ==> DistinctNames(r)
  {
    match Lookup(es, e.name)
    case None => es + [e]
    case Some(found) =>
      var r := seq(|es|, i requires 0 <= i < |es| => if es[i].name == e.name then e else es[i]);
      assert e in r by {
        var i :| 0 <= i < |es| && es[i] == found;
        assert r[i] == e;
      }
      assert forall i :: 0 <= i < |r| ==> r[i].name == es[i].name;
      r
  }

  /** The tail of entries with distinct names has distinct names, none of them the head's. */
  lemma DistinctTail(es: seq<VersionEntry>)
    requires |es| > 0
    ensures DistinctNames(es) ==> DistinctNames(es[1..]) && forall y :: y in es[1..] ==> y.name != es[0].name
  {
    if DistinctNames(es) {
      forall y | y in es[1..] ensures y.name != es[0].name {
        var j :| 0 <= j < |es[1..]| && es[1..][j] == y;
        assert es[j + 1] == y;
      }
    }
  }

  /** An entry in front of entries with other, distinct names keeps the names distinct. */
  lemma ConsDistinct(x: VersionEntry, rest: seq<VersionEntry>)
    ensures DistinctNames(rest) && (forall y :: y in rest ==> y.name != x.name) ==> DistinctNames([x] + rest)
  {
    if DistinctNames(rest) && (forall y :: y in rest ==> y.name != x.name) {
      var r := [x] + rest;
      forall i, j | 0 <= i < j < |r| ensures r[i].name != r[j].name {
        assert r[j] == rest[j - 1];
        if i > 0 { assert r[i] == rest[i - 1]; } else { assert rest[j - 1] in rest; }
      }
    }
  }
}
