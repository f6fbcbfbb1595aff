/**
 * Windows paths as sequences of segments, and the `System.IO.Path`
 * operations the services use.
 *
 * A path's first segment is its root (a drive such as `C:`); the others are
 * directory names and, for a file, the file name last. Segments never contain
 * a separator. The empty sequence stands for the empty string.
 */
module Paths {
  import opened Text

  type Path = seq<string>

  /** The characters `Path.GetFileName` splits on under .NET Framework on Windows. */
  predicate IsSeparator(c: char)
  {
    c == '\\' || c == '/' || c == ':'
  }

  predicate NoSeparator(name: string)
  {
    forall k :: 0 <= k < |name| ==> !IsSeparator(name[k])
  }

  /** `Path.GetFileName`: the last segment, empty for the empty path. */
  function FileName(p: Path): string
  {
    if p == [] then "" else p[|p| - 1]
  }

  /** `Path.GetDirectoryName`: every segment but the last. */
  function DirectoryName(p: Path): (d: Path)
    requires p != []
    ensures |d| == |p| - 1 && p == d + [FileName(p)]
  {
    p[..|p| - 1]
  }

  /** `string.Equals(a, b, StringComparison.OrdinalIgnoreCase)` on whole paths. */
  predicate SamePath(a: Path, b: Path)
  {
    |a| == |b| && forall k :: 0 <= k < |a| ==> EqualsIgnoreCase(a[k], b[k])
  }

  /** The index of the last occurrence of `c` in `s`, or -1. */
  function LastIndexOf(s: string, c: char): (r: int)
    ensures -1 <= r < |s|
    ensures r >= 0 ==> s[r] == c
    ensures forall k :: r < k < |s| ==> s[k] != c
  {
    if s == [] then -1
    else if s[|s| - 1] == c then |s| - 1
    else LastIndexOf(s[..|s| - 1], c)
  }

  /**
   * `Path.GetExtension` of a file name: from its last dot to its end, or
   * empty when there is no dot or the dot is the last character.
   */
  function Extension(name: string): (ext: string)
    ensures ext == [] || (|ext| >= 2 && ext[0] == '.')
    ensures ext != [] ==> |ext| <= |name| && ext == name[|name| - |ext|..]
    ensures forall k :: 0 < k < |ext| ==> ext[k] != '.'
    ensures ext == [] <==> LastIndexOf(name, '.') < 0 || LastIndexOf(name, '.') == |name| - 1
  {
    var d := LastIndexOf(name, '.');
    if d < 0 || d == |name| - 1 then "" else name[d..]
  }

  /** A name followed by an extension has that extension. */
  lemma ExtensionOfRenamed(stem: string, ext: string)
    requires |ext| >= 2 && ext[0] == '.'
    requires forall k :: 0 < k < |ext| ==> ext[k] != '.'
    ensures Extension(stem + ext) == ext
  {
    var s := stem + ext;
    assert s[|stem|] == '.';
    var d := LastIndexOf(s, '.');
    assert forall k :: |stem| < k < |s| ==> s[k] == ext[k - |stem|];
    assert s[d..] == ext;
  }

  /** The index of the last separator of `s`, or -1. */
  function LastSeparator(s: string): (r: int)
    ensures -1 <= r < |s|
    ensures r >= 0 ==> IsSeparator(s[r])
    ensures forall k :: r < k < |s| ==> !IsSeparator(s[k])
  {
    if s == [] then -1
    else if IsSeparator(s[|s| - 1]) then |s| - 1
    else LastSeparator(s[..|s| - 1])
  }

  /** `Path.GetFileName` on a path held as text: what follows its last separator. */
  function FileNameOf(s: string): (name: string)
    ensures NoSeparator(name)
    ensures |name| <= |s| && name == s[|s| - |name|..]
    ensures |name| < |s| ==> IsSeparator(s[|s| - |name| - 1])
  {
    s[LastSeparator(s) + 1..]
  }

  /** Text made of a prefix, a separator and a name has that name as its file name. */
  lemma FileNameOfAfterSeparator(prefix: string, sep: char, name: string)
    requires IsSeparator(sep) && NoSeparator(name)
    ensures FileNameOf(prefix + [sep] + name) == name
  {
    var s := prefix + [sep] + name;
    assert s[|prefix|] == sep;
    assert forall k :: |prefix| < k < |s| ==> s[k] == name[k - |prefix| - 1];
  }

  /** `String.Join("\\", segments)`. */
  function Join(segments: seq<string>): string
  {
    if segments == [] then ""
    else if |segments| == 1 then segments[0]
    else Join(segments[..|segments| - 1]) + "\\" + segments[|segments| - 1]
  }

  /** The file name of joined segments is the last segment. */
  lemma FileNameOfJoin(segments: seq<string>)
    requires segments != []
    requires NoSeparator(segments[|segments| - 1])
    ensures FileNameOf(Join(segments)) == segments[|segments| - 1]
  {
    var last := segments[|segments| - 1];
    if |segments| == 1 {
      assert LastSeparator(last) == -1;
    } else {
      FileNameOfAfterSeparator(Join(segments[..|segments| - 1]), '\\', last);
    }
  }
}
