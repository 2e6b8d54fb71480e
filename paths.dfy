/**
 * The file layout of a database that is not in memory.
 *
 * Objects are stored under the database directory in a tree called "dicom":
 * a directory per study holding a directory per series holding one file per
 * object, each named by its UID. Thumbnails sit in the same layout under a
 * parallel tree called "thumbs". Paths use "/" as separator.
 */
module Paths {

  /** Where an object sits in either tree: its study, series and own UID. */
  datatype Location = Location(study: string, series: string, instance: string)

  /** A file the database keeps under its directory. */
  datatype DiskEntry = DicomFile(loc: Location) | ThumbnailFile(loc: Location)

  const DicomTree := "dicom"
  const ThumbsTree := "thumbs"

  predicate NoSlash(s: string) {
    '/' !in s
  }

  /** DICOM UIDs (digits and dots) name single path components. */
  predicate PlainLocation(loc: Location) {
    NoSlash(loc.study) && NoSlash(loc.series) && NoSlash(loc.instance)
  }

  function Join(dir: string, name: string): string {
    dir + "/" + name
  }

  function StudyDirectory(dir: string, tree: string, study: string): string {
    Join(Join(dir, tree), study)
  }

  function SeriesDirectory(dir: string, tree: string, study: string, series: string): string {
    Join(StudyDirectory(dir, tree, study), series)
  }

  /** <dir>/<tree>/<study>/<series>/<instance> */
  function TreePath(dir: string, tree: string, loc: Location): string {
    Join(SeriesDirectory(dir, tree, loc.study, loc.series), loc.instance)
  }

  function StoragePath(dir: string, loc: Location): string {
    TreePath(dir, DicomTree, loc)
  }

  function ThumbnailPath(dir: string, loc: Location): string {
    TreePath(dir, ThumbsTree, loc)
  }

  function EntryTree(e: DiskEntry): string {
    if e.DicomFile? then DicomTree else ThumbsTree
  }

  function EntryPath(dir: string, e: DiskEntry): string {
    TreePath(dir, EntryTree(e), e.loc)
  }

  /** The position of the last `c` in `s`, or -1 when there is none. */
  function LastIndexOf(s: string, c: char): (r: int)
    ensures -1 <= r < |s|
    ensures r >= 0 ==> s[r] == c
    ensures forall k | r < k < |s| :: s[k] != c
  {
    if s == [] then -1
    else if s[|s| - 1] == c then |s| - 1
    else LastIndexOf(s[..|s| - 1], c)
  }

  /** databaseDirectory: the directory the database file resides in ("." for a bare name). */
  function DirectoryOf(databaseFile: string): string {
    var r := LastIndexOf(databaseFile, '/');
    if r < 0 then "." else databaseFile[..r]
  }

  /** The last separator of a join is the one the join added. */
  lemma LastSlashOfJoin(dir: string, name: string)
    requires NoSlash(name)
    ensures LastIndexOf(Join(dir, name), '/') == |dir|
  {
    var s := Join(dir, name);
    assert s[|dir|] == '/';
    assert forall k | |dir| < k < |s| :: s[k] == name[k - |dir| - 1];
  }

  /** The directory of a file placed in `dir` is `dir`. */
  lemma DirectoryOfJoin(dir: string, name: string)
    requires NoSlash(name)
    ensures DirectoryOf(Join(dir, name)) == dir
  {
    LastSlashOfJoin(dir, name);
    assert Join(dir, name)[..|dir|] == dir;
  }

  /** A join splits uniquely at its last separator. */
  lemma JoinInjective(a: string, x: string, b: string, y: string)
    requires NoSlash(x) && NoSlash(y)
    requires Join(a, x) == Join(b, y)
    ensures a == b && x == y
  {
    var s := Join(a, x);
    LastSlashOfJoin(a, x);
    LastSlashOfJoin(b, y);
    assert a == s[..|a|] && b == s[..|b|];
    assert x == s[|a| + 1..] && y == s[|b| + 1..];
  }

  /** Paths are deterministic and collision-free: one file per location and tree. */
  lemma TreePathInjective(dir: string, tree: string, l1: Location, l2: Location)
    requires PlainLocation(l1) && PlainLocation(l2)
    ensures TreePath(dir, tree, l1) == TreePath(dir, tree, l2) <==> l1 == l2
  {
    if TreePath(dir, tree, l1) == TreePath(dir, tree, l2) {
      JoinInjective(SeriesDirectory(dir, tree, l1.study, l1.series), l1.instance,
                    SeriesDirectory(dir, tree, l2.study, l2.series), l2.instance);
      JoinInjective(StudyDirectory(dir, tree, l1.study), l1.series,
                    StudyDirectory(dir, tree, l2.study), l2.series);
      JoinInjective(Join(dir, tree), l1.study, Join(dir, tree), l2.study);
    }
  }

  /** The object tree and the thumbnail tree never share a path. */
  lemma TreesDisjoint(dir: string, l1: Location, l2: Location)
    ensures StoragePath(dir, l1) != ThumbnailPath(dir, l2)
  {
    var p, q := StoragePath(dir, l1), ThumbnailPath(dir, l2);
    assert p == Join(dir, DicomTree) + ("/" + l1.study + "/" + l1.series + "/" + l1.instance);
    assert q == Join(dir, ThumbsTree) + ("/" + l2.study + "/" + l2.series + "/" + l2.instance);
    assert p[|dir| + 1] == 'd';
    assert q[|dir| + 1] == 't';
  }

  /** Distinct entries of plain locations have distinct paths. */
  lemma EntryPathInjective(dir: string, e1: DiskEntry, e2: DiskEntry)
    requires PlainLocation(e1.loc) && PlainLocation(e2.loc)
    ensures EntryPath(dir, e1) == EntryPath(dir, e2) <==> e1 == e2
  {
    match (e1, e2)
    case (DicomFile(l1), DicomFile(l2)) => TreePathInjective(dir, DicomTree, l1, l2);
    case (ThumbnailFile(l1), ThumbnailFile(l2)) => TreePathInjective(dir, ThumbsTree, l1, l2);
    case (DicomFile(l1), ThumbnailFile(l2)) => TreesDisjoint(dir, l1, l2);
    case (ThumbnailFile(l1), DicomFile(l2)) => TreesDisjoint(dir, l2, l1);
  }

  /** A file lies under a study's directory exactly when it belongs to that study. */
  lemma UnderStudyDirectory(dir: string, tree: string, study: string, loc: Location)
    requires NoSlash(study) && NoSlash(loc.study)
    ensures StudyDirectory(dir, tree, study) + "/" <= TreePath(dir, tree, loc) <==> loc.study == study
  {
    var root := Join(dir, tree) + "/";
    var prefix := StudyDirectory(dir, tree, study) + "/";
    var path := TreePath(dir, tree, loc);
    assert prefix == root + study + "/";
    assert path == root + loc.study + "/" + (loc.series + "/" + loc.instance);
    if prefix <= path {
      var n := |root|;
      assert forall k | n <= k < n + |loc.study| :: path[k] == loc.study[k - n];
      assert path[n + |study|] == prefix[n + |study|] == '/';
      assert forall k | n <= k < n + |study| :: prefix[k] == study[k - n] && path[k] == prefix[k];
      assert path[n + |loc.study|] == '/';
      assert study == prefix[n..n + |study|];
      assert loc.study == path[n..n + |loc.study|];
    }
  }
}
