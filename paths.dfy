/**
 * The three `os.path` operations the converter uses to name its output:
 * `basename`, `splitext` and `join`, with `/` as the only separator (the
 * form the file dialogs hand back).
 */
module Paths {
  import opened Strings

  const Sep: char := '/'
  const ExtSep: char := '.'

  /** `s.rfind(c)`: the index of the last `c` in `s`, or -1 when there is none. */
  function RFind(s: string, c: char): (r: int)
    ensures -1 <= r < |s|
    ensures r >= 0 ==> s[r] == c
    ensures forall k :: r < k < |s| ==> s[k] != c
  {
    if s == [] then -1
    else if s[|s| - 1] == c then |s| - 1
    else RFind(s[..|s| - 1], c)
  }

  /** The three facts of RFind's contract pin its result down. */
  lemma RFindUnique(s: string, c: char, r: int)
    requires -1 <= r < |s|
    requires r >= 0 ==> s[r] == c
    requires forall k :: r < k < |s| ==> s[k] != c
    ensures RFind(s, c) == r
  {
  }

  /** `os.path.basename(p)`: the longest suffix of `p` without a separator. */
  function Basename(p: string): (r: string)
    ensures Sep !in r
    ensures |r| <= |p| && p[|p| - |r|..] == r
    ensures |r| < |p| ==> p[|p| - |r| - 1] == Sep
  {
    p[RFind(p, Sep) + 1..]
  }

  /** Some character of `s[lo..hi]` is not a dot. */
  predicate HasNonDot(s: string, lo: int, hi: int)
    requires 0 <= lo <= hi <= |s|
  {
    exists k :: lo <= k < hi && s[k] != ExtSep
  }

  /** The result of `os.path.splitext`: `root + ext` is the path, `ext` is empty or starts with the dot. */
  datatype PathSplit = PathSplit(root: string, ext: string)

  /**
   * `os.path.splitext(p)`: split at the last dot of the last path component,
   * unless every character of that component before the dot is itself a dot
   * (`.bashrc`, `..`), in which case there is no extension.
   */
  function SplitExt(p: string): (r: PathSplit)
    ensures r.root + r.ext == p
    ensures r.ext == [] || (r.ext[0] == ExtSep && Sep !in r.ext && ExtSep !in r.ext[1..])
  {
    var sepIndex := RFind(p, Sep);
    var dotIndex := RFind(p, ExtSep);
    if dotIndex > sepIndex && HasNonDot(p, sepIndex + 1, dotIndex) then
      PathSplit(p[..dotIndex], p[dotIndex..])
    else
      PathSplit(p, [])
  }

  /** The file name has a dot somewhere after a character that is not a dot. */
  predicate HasExtensionDot(name: string) {
    exists i, j :: 0 <= j < i < |name| && name[j] != ExtSep && name[i] == ExtSep
  }

  lemma ExtensionHasDot(p: string)
    requires SplitExt(p).ext != []
    ensures HasExtensionDot(Basename(p))
  {
    var sepIndex := RFind(p, Sep);
    var dotIndex := RFind(p, ExtSep);
    var b := Basename(p);
    assert b == p[sepIndex + 1..];
    var k :| sepIndex + 1 <= k < dotIndex && p[k] != ExtSep;
    assert b[k - sepIndex - 1] == p[k] && b[dotIndex - sepIndex - 1] == p[dotIndex];
  }

  lemma DotGivesExtension(p: string)
    requires HasExtensionDot(Basename(p))
    ensures SplitExt(p).ext != []
  {
    var sepIndex := RFind(p, Sep);
    var dotIndex := RFind(p, ExtSep);
    var b := Basename(p);
    assert b == p[sepIndex + 1..];
    var i, j :| 0 <= j < i < |b| && b[j] != ExtSep && b[i] == ExtSep;
    assert p[i + sepIndex + 1] == ExtSep && p[j + sepIndex + 1] != ExtSep;
    assert dotIndex >= i + sepIndex + 1;
    assert HasNonDot(p, sepIndex + 1, dotIndex);
  }

  /**
   * A path has an extension exactly when its last component has a dot that
   * some other character precedes; leading dots never start one.
   */
  lemma SplitExtNonEmptyIff(p: string)
    ensures SplitExt(p).ext != [] <==> HasExtensionDot(Basename(p))
  {
    if SplitExt(p).ext != [] {
      ExtensionHasDot(p);
    }
    if HasExtensionDot(Basename(p)) {
      DotGivesExtension(p);
    }
  }

  /** Whether a window holds a non-dot does not depend on where the string is cut. */
  lemma HasNonDotShift(s: string, off: int, lo: int, hi: int)
    requires 0 <= off <= |s| && 0 <= lo <= hi <= |s| - off
    ensures HasNonDot(s[off..], lo, hi) == HasNonDot(s, off + lo, off + hi)
  {
    if HasNonDot(s, off + lo, off + hi) {
      var k :| off + lo <= k < off + hi && s[k] != ExtSep;
      assert s[off..][k - off] == s[k];
    }
    if HasNonDot(s[off..], lo, hi) {
      var k :| lo <= k < hi && s[off..][k] != ExtSep;
      assert s[off + k] == s[off..][k];
    }
  }

  /** Cancelling a common suffix: `r + e == p` and `r' + e == b` for a suffix `b` of `p`. */
  lemma RootOfSuffix(p: string, b: string, e: string, rp: string, rb: string)
    requires rp + e == p && rb + e == b
    requires |b| <= |p| && p[|p| - |b|..] == b
    ensures rp == p[..|p| - |b|] + rb
  {
    var off := |p| - |b|;
    assert p == p[..off] + b;
    assert p == (p[..off] + rb) + e;
    assert rp == p[..|rp|];
  }

  lemma ExtOfBasename(p: string)
    ensures SplitExt(p).ext == SplitExt(Basename(p)).ext
  {
    var sepIndex := RFind(p, Sep);
    var dotIndex := RFind(p, ExtSep);
    var off := sepIndex + 1;
    var b := p[off..];
    assert Basename(p) == b;
    RFindUnique(b, Sep, -1);
    if dotIndex > sepIndex {
      var bDot := dotIndex - off;
      RFindUnique(b, ExtSep, bDot);
      HasNonDotShift(p, off, 0, bDot);
      assert p[dotIndex..] == b[bDot..];
    } else {
      RFindUnique(b, ExtSep, -1);
    }
  }

  /**
   * Only the last component decides the extension: the extension of a path
   * is that of its basename, and the root of the path is the directory part
   * followed by the root of the basename.
   */
  lemma SplitExtOfBasename(p: string)
    ensures SplitExt(p).ext == SplitExt(Basename(p)).ext
    ensures SplitExt(p).root == p[..|p| - |Basename(p)|] + SplitExt(Basename(p)).root
  {
    ExtOfBasename(p);
    var b := Basename(p);
    RootOfSuffix(p, b, SplitExt(p).ext, SplitExt(p).root, SplitExt(b).root);
  }

  /** Lower-casing never creates or removes a separator or a dot. */
  lemma LowerKeepsPunctuation(s: string, c: char)
    requires c == Sep || c == ExtSep
    ensures forall k :: 0 <= k < |s| ==> (Lower(s)[k] == c <==> s[k] == c)
  {
  }

  lemma HasNonDotLower(p: string, lo: int, hi: int)
    requires 0 <= lo <= hi <= |p|
    ensures HasNonDot(Lower(p), lo, hi) == HasNonDot(p, lo, hi)
  {
    LowerKeepsPunctuation(p, ExtSep);
    if HasNonDot(p, lo, hi) {
      var k :| lo <= k < hi && p[k] != ExtSep;
      assert Lower(p)[k] != ExtSep;
    }
    if HasNonDot(Lower(p), lo, hi) {
      var k :| lo <= k < hi && Lower(p)[k] != ExtSep;
      assert p[k] != ExtSep;
    }
  }

  lemma ExtOfLower(p: string)
    ensures SplitExt(Lower(p)).ext == Lower(SplitExt(p).ext)
  {
    var q := Lower(p);
    LowerKeepsPunctuation(p, Sep);
    LowerKeepsPunctuation(p, ExtSep);
    var sepIndex := RFind(p, Sep);
    var dotIndex := RFind(p, ExtSep);
    RFindUnique(q, Sep, sepIndex);
    RFindUnique(q, ExtSep, dotIndex);
    if dotIndex > sepIndex {
      HasNonDotLower(p, sepIndex + 1, dotIndex);
      if HasNonDot(p, sepIndex + 1, dotIndex) {
        LowerSlice(p, dotIndex, |p|);
      }
    }
  }

  /** Splitting the lower-cased path gives the lower-cased parts: `splitext` commutes with `lower`. */
  lemma SplitExtLower(p: string)
    ensures SplitExt(Lower(p)) == PathSplit(Lower(SplitExt(p).root), Lower(SplitExt(p).ext))
  {
    var q := Lower(p);
    var parts := SplitExt(p);
    ExtOfLower(p);
    LowerAppend(parts.root, parts.ext);
    RootOfSuffix(q, q, SplitExt(q).ext, SplitExt(q).root, Lower(parts.root));
    assert q[..0] == [];
  }

  /** `os.path.join(dir, name)` for two components. */
  function JoinPath(dir: string, name: string): string {
    if |name| > 0 && name[0] == Sep then name
    else if dir == [] || dir[|dir| - 1] == Sep then dir + name
    else dir + [Sep] + name
  }

  /** `dir` followed by a separator, unless it is empty or already ends in one. */
  function DirPrefix(dir: string): (r: string)
    ensures r == [] || r[|r| - 1] == Sep
    ensures |r| >= |dir| && r[..|dir|] == dir
    ensures |r| <= |dir| + 1
    ensures dir == [] || dir[|dir| - 1] == Sep ==> r == dir
  {
    if dir == [] || dir[|dir| - 1] == Sep then dir else dir + [Sep]
  }

  /**
   * Joining a plain file name onto a directory puts it right after the
   * directory (and one separator when needed), and the file name is then the
   * basename of the joined path.
   */
  lemma JoinPathBasename(dir: string, name: string)
    requires Sep !in name
    ensures JoinPath(dir, name) == DirPrefix(dir) + name
    ensures Basename(JoinPath(dir, name)) == name
  {
    var pre := DirPrefix(dir);
    var j := pre + name;
    if |name| > 0 {
      assert name[0] in name;
    }
    RFindUnique(j, Sep, |pre| - 1);
    assert j[|pre|..] == name;
  }
}
