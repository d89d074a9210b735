/**
 * File-name handling used by the gallery loader: the label of a gallery image
 * is its file name with the extension removed, as Python's `os.path.splitext`
 * computes it on POSIX systems (separator '/', extension separator '.').
 */
module PathText {

  /** The two halves `os.path.splitext` returns: `root + ext` is the path. */
  datatype SplitPath = SplitPath(root: string, ext: string)

  /** Index of the last occurrence of `c` in `s`, or -1 (Python's `str.rfind`). */
  function LastIndexOf(s: string, c: char): (k: int)
    ensures -1 <= k < |s|
    ensures k >= 0 ==> s[k] == c
    ensures forall j :: k < j < |s| ==> s[j] != c
  {
    if |s| == 0 then -1
    else if s[|s| - 1] == c then |s| - 1
    else LastIndexOf(s[..|s| - 1], c)
  }

  /**
   * `os.path.splitext`: the extension starts at the last '.' that lies after
   * the last '/', provided some character other than '.' precedes that dot
   * within the last path component; leading dots (".bashrc") do not start
   * an extension. Otherwise the extension is empty.
   */
  function Splitext(path: string): (parts: SplitPath)
    ensures parts.root + parts.ext == path
    ensures parts.ext == [] || parts.ext[0] == '.'
    ensures forall j :: 0 < j < |parts.ext| ==> parts.ext[j] != '.' && parts.ext[j] != '/'
  {
    var sepIndex := LastIndexOf(path, '/');
    var dotIndex := LastIndexOf(path, '.');
    if sepIndex < dotIndex && exists j :: sepIndex < j < dotIndex && path[j] != '.' then
      SplitPath(path[..dotIndex], path[dotIndex..])
    else
      SplitPath(path, "")
  }

  /** The label derived from a file name: `os.path.splitext(name)[0]`. */
  function Stem(name: string): (stem: string)
  {
    Splitext(name).root
  }

  /**
   * A path has an extension exactly when, inside its last component, some
   * character other than '.' is followed later by a '.'.
   */
  lemma SplitextHasExtension(path: string)
    ensures Splitext(path).ext != [] <==>
      exists a, b :: 0 <= a < b < |path| && path[a] != '.' && path[b] == '.' && '/' !in path[a..]
  {
  }

  /** A non-empty file name never yields an empty label. */
  lemma StemNonEmpty(name: string)
    requires name != []
    ensures Stem(name) != []
  {
  }

  /** A file name without any '.' is its own label. */
  lemma StemWithoutDot(name: string)
    requires '.' !in name
    ensures Stem(name) == name
  {
  }

  /** Worked example: an ordinary extension is removed. */
  lemma StemExample()
    ensures Stem("alice.jpg") == "alice"
  {
    var alice := "alice.jpg";
    assert LastIndexOf(alice, '.') == 5 by { assert alice[5] == '.'; }
    assert LastIndexOf(alice, '/') == -1;
    assert alice[0] != '.';
  }

  /** Worked example: only the last extension is split off. */
  lemma SplitextLastDotExample()
    ensures Splitext("archive.tar.gz") == SplitPath("archive.tar", ".gz")
  {
    var archive := "archive.tar.gz";
    assert LastIndexOf(archive, '.') == 11 by { assert archive[11] == '.'; }
    assert LastIndexOf(archive, '/') == -1;
    assert archive[0] != '.';
  }

  /** Worked example: a leading dot does not start an extension. */
  lemma SplitextDotFileExample()
    ensures Splitext(".bashrc") == SplitPath(".bashrc", "")
  {
    var bashrc := ".bashrc";
    assert LastIndexOf(bashrc, '.') == 0 by { assert bashrc[0] == '.'; }
  }
}
