/**
 * Unix path handling as Rust's `std::path` performs it for the operations the
 * file manager uses: `file_name`, `file_stem`, `extension` and `join`.
 * A path is a string whose components are separated by '/'.
 */
module Paths {
  import opened Wrappers

  type Path = string

  /** The last index at which `c` occurs in `s`, if any. */
  function LastIndexOf(s: string, c: char): (r: Option<nat>)
    ensures r.Some? ==> r.value < |s| && s[r.value] == c
    ensures r.Some? ==> forall k :: r.value < k < |s| ==> s[k] != c
    ensures r.None? ==> forall k :: 0 <= k < |s| ==> s[k] != c
  {
    if s == [] then None
    else if s[|s| - 1] == c then Some(|s| - 1)
    else LastIndexOf(s[..|s| - 1], c)
  }

  /**
   * The path without trailing separators and without trailing `.` components,
   * which `Path::components` skips when they are not the first component.
   */
  function TrimTail(p: string): (t: string)
    ensures t <= p
    decreases |p|
  {
    if |p| > 0 && p[|p| - 1] == '/' then TrimTail(p[..|p| - 1])
    else if |p| >= 2 && p[|p| - 2] == '/' && p[|p| - 1] == '.' then TrimTail(p[..|p| - 1])
    else p
  }

  /** The text after the last separator. */
  function LastSegment(s: string): (seg: string)
    ensures '/' !in seg
  {
    match LastIndexOf(s, '/')
    case None => s
    case Some(k) => s[k + 1..]
  }

  /** `Path::file_name`: the final normal component; none for "", "/", "." or a final "..". */
  function FileName(p: Path): (r: Option<string>)
    ensures r.Some? ==> r.value != "" && '/' !in r.value
  {
    var seg := LastSegment(TrimTail(p));
    if seg == "" || seg == "." || seg == ".." then None else Some(seg)
  }

  /** `file_name().unwrap_or_default()`: a missing file name reads as the empty string. */
  function NameOrEmpty(p: Path): string {
    match FileName(p)
    case None => ""
    case Some(n) => n
  }

  /** The index of the dot that separates stem and extension: the last one, unless it is the first character. */
  function ExtensionDot(name: string): (r: Option<nat>)
    ensures r.Some? ==> 0 < r.value < |name| && name[r.value] == '.'
    ensures r.Some? ==> '.' !in name[r.value + 1..]
  {
    match LastIndexOf(name, '.')
    case Some(d) => if d > 0 then Some(d) else None
    case None => None
  }

  /** `Path::file_stem`: the file name up to its extension dot, or the whole file name. */
  function FileStem(p: Path): Option<string> {
    match FileName(p)
    case None => None
    case Some(n) =>
      match ExtensionDot(n)
      case None => Some(n)
      case Some(d) => Some(n[..d])
  }

  /** `Path::extension`: the file name after its extension dot (possibly empty); none without such a dot. */
  function Extension(p: Path): Option<string> {
    match FileName(p)
    case None => None
    case Some(n) =>
      match ExtensionDot(n)
      case None => None
      case Some(d) => Some(n[d + 1..])
  }

  predicate HasExtension(p: Path) {
    Extension(p).Some?
  }

  /** `Path::join` (`PathBuf::push`): an absolute name replaces the directory; a separator is added only when needed. */
  function Join(dir: Path, name: string): Path {
    if |name| > 0 && name[0] == '/' then name
    else if dir == "" || dir[|dir| - 1] == '/' then dir + name
    else dir + "/" + name
  }

  /** A path with an extension has a stem and a file name that rebuild from the two around the dot. */
  lemma StemAndExtension(p: Path)
    requires HasExtension(p)
    ensures FileName(p).Some? && FileStem(p).Some?
    ensures FileName(p).value == FileStem(p).value + "." + Extension(p).value
    ensures FileStem(p).value != "" && '/' !in FileStem(p).value
    ensures '.' !in Extension(p).value && '/' !in Extension(p).value
  {
  }

  /** Joining a plain file name onto a directory yields a path that begins with the directory. */
  lemma JoinExtendsDir(dir: Path, name: string)
    requires name == [] || name[0] != '/'
    ensures dir <= Join(dir, name)
  {
  }

  /** Joining a plain file name onto any directory yields a path whose file name is that name. */
  lemma {:induction false} FileNameOfJoin(dir: Path, name: string)
    requires name != "" && name != "." && name != ".." && '/' !in name
    ensures FileName(Join(dir, name)) == Some(name)
  {
    var j := Join(dir, name);
    var sep := if dir == "" || dir[|dir| - 1] == '/' then dir else dir + "/";
    assert j == sep + name;
    assert j[|j| - 1] == name[|name| - 1];
    if |name| >= 2 {
      assert j[|j| - 2] == name[|name| - 2];
    } else {
      assert name[0] != '.';
    }
    assert TrimTail(j) == j;
    assert forall k :: |sep| <= k < |j| ==> j[k] == name[k - |sep|];
    if sep == "" {
      assert LastIndexOf(j, '/') == None;
    } else {
      assert j[|sep| - 1] == '/';
      assert LastIndexOf(j, '/') == Some(|sep| - 1) by {
        LastIndexOfUnique(j, '/', |sep| - 1);
      }
      assert j[|sep|..] == name;
    }
  }

  /** An occurrence after which the character never reappears is the last occurrence. */
  lemma {:induction false} LastIndexOfUnique(s: string, c: char, i: nat)
    requires i < |s| && s[i] == c
    requires forall k :: i < k < |s| ==> s[k] != c
    ensures LastIndexOf(s, c) == Some(i)
  {
    if i < |s| - 1 {
      assert s[..|s| - 1][i] == c;
      LastIndexOfUnique(s[..|s| - 1], c, i);
    }
  }

  /** A name built as stem, dot, dot-free extension splits back into that stem and extension. */
  lemma {:induction false} SplitBuiltName(stem: string, ext: string)
    requires stem != "" && '.' !in ext
    ensures ExtensionDot(stem + "." + ext) == Some(|stem|)
  {
    var n := stem + "." + ext;
    assert n[|stem|] == '.';
    assert forall k :: |stem| < k < |n| ==> n[k] == ext[k - |stem| - 1];
    LastIndexOfUnique(n, '.', |stem|);
  }
}
