/** `os.path.splitext` as implemented for POSIX paths: the extension starts at
    the last '.' of the final path component, provided some character of that
    component before the dot is not a dot (leading dots do not count). */
module Paths {
  import opened Strings

  /** The scan that skips leading dots: does p[lo..hi] hold a non-dot character? */
  function HasNonDot(p: string, lo: int, hi: int): (b: bool)
    requires 0 <= lo && hi <= |p|
    ensures b <==> exists k :: lo <= k < hi && p[k] != '.'
    decreases hi - lo
  {
    if lo >= hi then false
    else if p[lo] != '.' then true
    else HasNonDot(p, lo + 1, hi)
  }

  /** (root, ext) with root + ext == p. */
  function SplitExt(p: string): (r: (string, string))
    ensures r.0 + r.1 == p
    ensures r.1 == [] || (r.1[0] == '.' && forall k :: 1 <= k < |r.1| ==> r.1[k] != '.' && r.1[k] != '/')
    ensures r.1 != [] <==> exists k, d :: RFind(p, '/') < k < d < |p| && p[k] != '.' && p[d] == '.'
  {
    var sepIndex := RFind(p, '/');
    var dotIndex := RFind(p, '.');
    if dotIndex > sepIndex && HasNonDot(p, sepIndex + 1, dotIndex) then
      (p[..dotIndex], p[dotIndex..])
    else
      (p, [])
  }

  /** A path without '/' has its extension after the last dot. */
  lemma SplitExtPlainName()
    ensures SplitExt("photo.JPG") == ("photo", ".JPG")
  {
    var p := "photo.JPG";
    assert RFind(p, '/') == -1;
    assert p[5] == '.';
    assert RFind(p, '.') == 5;
    assert HasNonDot(p, 0, 5) by { assert p[0] != '.'; }
    assert p[..5] == "photo" && p[5..] == ".JPG";
  }

  /** Only the last dot starts the extension. */
  lemma SplitExtTwoDots()
    ensures SplitExt("a.b.png") == ("a.b", ".png")
  {
    var p := "a.b.png";
    assert RFind(p, '/') == -1;
    assert p[3] == '.';
    assert RFind(p, '.') == 3;
    assert HasNonDot(p, 0, 3) by { assert p[0] != '.'; }
    assert p[..3] == "a.b" && p[3..] == ".png";
  }

  /** A dot-file has no extension: its leading dot does not count. */
  lemma SplitExtDotFile()
    ensures SplitExt(".png") == (".png", "")
  {
    var p := ".png";
    assert RFind(p, '/') == -1;
    assert p[0] == '.';
    assert RFind(p, '.') == 0;
  }

  /** A dot in a directory name is not an extension. */
  lemma SplitExtDottedDirectory()
    ensures SplitExt("dir.d/file") == ("dir.d/file", "")
  {
    var p := "dir.d/file";
    assert p[5] == '/';
    assert RFind(p, '/') == 5;
    assert RFind(p, '.') < 5;
  }
}
