/**
 * The file-name arithmetic `add_product` relies on: Python's `str.rfind` and
 * POSIX `os.path.splitext`, and the stored image name built from a product
 * code and the extension of the sanitised upload name.
 */
module Paths {

  /** Index of the last occurrence of `c` in `s`, or -1 when there is none
      (Python's `str.rfind` for a one-character needle). */
  function RFind(s: string, c: char): (r: int)
    ensures -1 <= r < |s|
    ensures r >= 0 ==> s[r] == c
    ensures forall j :: r < j < |s| ==> s[j] != c
  {
    if |s| == 0 then -1
    else if s[|s| - 1] == c then |s| - 1
    else RFind(s[..|s| - 1], c)
  }

  /** True when some character of `p` strictly between `lo` and `hi` is not a dot. */
  predicate HasNonDotBetween(p: string, lo: int, hi: int)
    requires -1 <= lo && hi <= |p|
  {
    exists i :: lo < i < hi && p[i] != '.'
  }

  /** An extension as `splitext` returns it: empty, or one leading dot followed
      by characters that are neither dots nor path separators. */
  predicate IsExtension(e: string)
  {
    e == "" || (e[0] == '.' && forall k :: 1 <= k < |e| ==> e[k] != '.' && e[k] != '/')
  }

  /**
   * POSIX `os.path.splitext`: the pair (root, ext) with root + ext == p.
   * The extension starts at the last '.' that follows the last '/', provided
   * the final path component has a non-dot character before that dot (so
   * ".bashrc" and "..png" have no extension); otherwise it is empty.
   */
  function SplitExt(p: string): (r: (string, string))
    ensures r.0 + r.1 == p
    ensures IsExtension(r.1)
    ensures r.1 != "" <==>
      exists i, j :: RFind(p, '/') < i < j < |p| && p[i] != '.' && p[j] == '.'
  {
    ExtensionCondition(p);
    var sepIndex := RFind(p, '/');
    var dotIndex := RFind(p, '.');
    if dotIndex > sepIndex && HasNonDotBetween(p, sepIndex, dotIndex) then
      (p[..dotIndex], p[dotIndex..])
    else
      (p, "")
  }

  /** The test `splitext` applies, restated: the last dot follows the last
      separator with a non-dot before it exactly when, after the last
      separator, some non-dot character is followed by a dot. */
  lemma ExtensionCondition(p: string)
    ensures
      var sepIndex := RFind(p, '/');
      var dotIndex := RFind(p, '.');
      (dotIndex > sepIndex && HasNonDotBetween(p, sepIndex, dotIndex)) <==>
        exists i, j :: sepIndex < i < j < |p| && p[i] != '.' && p[j] == '.'
  {
  }

  /** The name an uploaded image is stored under: the product code followed
      by the extension of the sanitised upload name. */
  function StoredImageName(code: string, sanitized: string): (r: string)
    ensures |code| <= |r| && r[..|code|] == code
    ensures r[|code|..] == SplitExt(sanitized).1 && IsExtension(r[|code|..])
  {
    assert (code + SplitExt(sanitized).1)[..|code|] == code;
    code + SplitExt(sanitized).1
  }

  /** For a name with no '/' that does not start with a dot (the shape a
      sanitised upload name has), the extension is simply the suffix from
      the last dot, or empty when there is no dot. */
  lemma SplitExtOfPlainName(p: string)
    requires forall k :: 0 <= k < |p| ==> p[k] != '/'
    requires |p| == 0 || p[0] != '.'
    ensures '.' in p ==> SplitExt(p).1 == p[RFind(p, '.')..]
    ensures '.' !in p ==> SplitExt(p).1 == ""
  {
  }

  /** `RFind` is pinned down by its contract: the position of a `c` with no
      later `c` is the answer. */
  lemma RFindAt(s: string, c: char, i: int)
    requires 0 <= i < |s| && s[i] == c
    requires forall j :: i < j < |s| ==> s[j] != c
    ensures RFind(s, c) == i
  {
  }

  /** `RFind` reports -1 exactly when the character is absent. */
  lemma RFindAbsent(s: string, c: char)
    requires c !in s
    ensures RFind(s, c) == -1
  {
  }

  /** Worked cases of `splitext`, including the leading-dot and directory rules. */
  lemma SplitExtExamples()
    ensures SplitExt("photo.PNG") == ("photo", ".PNG")
    ensures SplitExt("archive.tar.gz") == ("archive.tar", ".gz")
    ensures SplitExt("README") == ("README", "")
    ensures SplitExt(".bashrc") == (".bashrc", "")
    ensures SplitExt("dir.d/file") == ("dir.d/file", "")
  {
    RFindAt("photo.PNG", '.', 5);
    RFindAbsent("photo.PNG", '/');
    assert HasNonDotBetween("photo.PNG", -1, 5) by { assert "photo.PNG"[0] != '.'; }
    assert "photo.PNG"[..5] == "photo" && "photo.PNG"[5..] == ".PNG";
    RFindAt("archive.tar.gz", '.', 11);
    RFindAbsent("archive.tar.gz", '/');
    assert HasNonDotBetween("archive.tar.gz", -1, 11) by { assert "archive.tar.gz"[0] != '.'; }
    assert "archive.tar.gz"[..11] == "archive.tar" && "archive.tar.gz"[11..] == ".gz";
    RFindAbsent("README", '.');
    RFindAbsent("README", '/');
    RFindAt(".bashrc", '.', 0);
    RFindAbsent(".bashrc", '/');
    RFindAt("dir.d/file", '/', 5);
    RFindAt("dir.d/file", '.', 3);
  }

  /** The stored name contains a '/' exactly when the product code does:
      the extension never contributes one, and the code is not sanitised. */
  lemma StoredNameIsBareIffCodeIs(code: string, sanitized: string)
    ensures '/' in StoredImageName(code, sanitized) <==> '/' in code
  {
  }

  /** Deriving the stored name is not injective in the product code: code
      "P1.png" with an upload that has no extension and code "P1" with a
      ".png" upload are both stored as "P1.png". */
  lemma StoredNameCollides()
    ensures StoredImageName("P1.png", "photo") == StoredImageName("P1", "photo.png") == "P1.png"
  {
    RFindAbsent("photo", '.');
    RFindAbsent("photo", '/');
    RFindAt("photo.png", '.', 5);
    RFindAbsent("photo.png", '/');
    assert "photo.png"[0] != '.';
  }
}
