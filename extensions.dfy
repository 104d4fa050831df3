/**
 * The file-type tables of the converter and the parser that turns their
 * filter patterns (`*.doc;*.docx`) into sets of dotted, lower-case
 * extensions (`.doc`, `.docx`).
 */
module Extensions {
  import opened Strings

  /** One row of a file-dialog filter table: a label and `;`-separated glob patterns. */
  datatype FileType = FileType(description: string, pattern: string)

  /** The pattern that matches every file; the parser skips it. */
  const Wildcard: string := "*.*"

  /** One pattern segment as it enters the set: lower-cased, then stripped of every `*`. */
  function Normalize(segment: string): (r: string)
    ensures IsLowerCase(r)
    ensures '*' !in r
  {
    LowerIsLowerCase(segment);
    RemoveAll(Lower(segment), '*')
  }

  /** What one table row contributes: nothing for the wildcard, else each normalised segment. */
  function EntryExtensions(f: FileType): set<string> {
    if f.pattern == Wildcard then {}
    else set segment | segment in Split(f.pattern, ';') :: Normalize(segment)
  }

  /** The extension set of a table: the union of what its rows contribute. */
  function ExtensionSet(formats: seq<FileType>): set<string> {
    if formats == [] then {}
    else EntryExtensions(formats[0]) + ExtensionSet(formats[1..])
  }

  /** The extension set of two tables one after the other is the union of their sets. */
  lemma {:induction false} ExtensionSetConcat(a: seq<FileType>, b: seq<FileType>)
    ensures ExtensionSet(a + b) == ExtensionSet(a) + ExtensionSet(b)
  {
    if a == [] {
      assert a + b == b;
    } else {
      assert (a + b)[1..] == a[1..] + b;
      ExtensionSetConcat(a[1..], b);
    }
  }

  /**
   * `generate_supported_extensions`: walk the rows, skip the wildcard, and
   * add each segment of the others, lower-cased and without asterisks.
   */
  method GenerateSupportedExtensions(formats: seq<FileType>) returns (exts: set<string>)
    ensures exts == ExtensionSet(formats)
  {
    exts := {};
    var i := 0;
    while i < |formats|
      invariant 0 <= i <= |formats|
      invariant exts == ExtensionSet(formats[..i])
    {
      var pattern := formats[i].pattern;
      if pattern != Wildcard {
        var segments := Split(pattern, ';');
        var j := 0;
        while j < |segments|
          invariant 0 <= j <= |segments|
          invariant exts == ExtensionSet(formats[..i]) + set segment | segment in segments[..j] :: Normalize(segment)
        {
          assert segments[..j + 1] == segments[..j] + [segments[j]];
          exts := exts + {Normalize(segments[j])};
          j := j + 1;
        }
        assert segments[..j] == segments;
      }
      assert formats[..i + 1] == formats[..i] + [formats[i]];
      ExtensionSetConcat(formats[..i], [formats[i]]);
      i := i + 1;
    }
    assert formats[..i] == formats;
  }

  /** Every element of an extension set is lower case and free of `*`. */
  lemma {:induction false} ExtensionSetWellFormed(formats: seq<FileType>)
    ensures forall e :: e in ExtensionSet(formats) ==> IsLowerCase(e) && '*' !in e
  {
    if formats != [] {
      ExtensionSetWellFormed(formats[1..]);
    }
  }

  /** An extension is in the set exactly when some row contributes it. */
  lemma {:induction false} ExtensionSetMember(formats: seq<FileType>, e: string)
    ensures e in ExtensionSet(formats) <==> exists i :: 0 <= i < |formats| && e in EntryExtensions(formats[i])
  {
    if formats != [] {
      ExtensionSetMember(formats[1..], e);
      if e in ExtensionSet(formats[1..]) {
        var i :| 0 <= i < |formats[1..]| && e in EntryExtensions(formats[1..][i]);
        assert e in EntryExtensions(formats[i + 1]);
      }
      if exists i :: 0 <= i < |formats| && e in EntryExtensions(formats[i]) {
        var i :| 0 <= i < |formats| && e in EntryExtensions(formats[i]);
        if i > 0 {
          assert formats[1..][i - 1] == formats[i];
        }
      }
    }
  }

  /**
   * A row whose pattern is the wildcard changes nothing, wherever it stands
   * in the table.
   */
  lemma WildcardContributesNothing(before: seq<FileType>, w: FileType, after: seq<FileType>)
    requires w.pattern == Wildcard
    ensures ExtensionSet(before + [w] + after) == ExtensionSet(before + after)
  {
    ExtensionSetConcat(before + [w], after);
    ExtensionSetConcat(before, [w]);
    ExtensionSetConcat(before, after);
  }

  /** An extension as the tables write it: starting with its dot, lower case, no `*` and no `;`. */
  predicate PlainExtension(x: string) {
    IsLowerCase(x) && '*' !in x && ';' !in x
  }

  /** The filter pattern `*x;*y;...` that matches the given extensions. */
  function GlobPattern(exts: seq<string>): string {
    JoinWith(seq(|exts|, i requires 0 <= i < |exts| => "*" + exts[i]), ';')
  }

  lemma GlobPatternOne(x: string)
    ensures GlobPattern([x]) == "*" + x
  {
  }

  lemma GlobPatternTwo(x: string, y: string)
    ensures GlobPattern([x, y]) == "*" + x + ";" + "*" + y
  {
    var globs := seq(2, i requires 0 <= i < 2 => "*" + [x, y][i]);
    assert globs == ["*" + x, "*" + y];
    assert globs[1..] == ["*" + y];
    assert JoinWith(globs[1..], ';') == "*" + y;
    assert JoinWith(globs, ';') == ("*" + x) + [';'] + ("*" + y);
  }

  /** A glob `*x` with `x` lower case and star-free normalises to `x`. */
  lemma NormalizeStarGlob(x: string)
    requires IsLowerCase(x) && '*' !in x
    ensures Normalize("*" + x) == x
  {
    LowerOfLowerCase("*" + x);
    assert ("*" + x)[1..] == x;
  }

  /**
   * Parsing inverts writing: a row whose pattern is the glob list of some
   * plain extensions contributes exactly those extensions.
   */
  lemma GlobEntry(f: FileType, exts: seq<string>)
    requires |exts| >= 1
    requires forall i :: 0 <= i < |exts| ==> PlainExtension(exts[i])
    requires f.pattern == GlobPattern(exts)
    ensures forall x :: x in EntryExtensions(f) <==> x in exts
  {
    var globs := seq(|exts|, i requires 0 <= i < |exts| => "*" + exts[i]);
    forall i | 0 <= i < |globs|
      ensures ';' !in globs[i] && Normalize(globs[i]) == exts[i]
    {
      NormalizeStarGlob(exts[i]);
    }
    SplitJoin(globs, ';');
    if |exts| == 1 {
      assert f.pattern == "*" + exts[0];
      assert '*' in Wildcard[1..];
      assert f.pattern[1..] == exts[0];
    } else {
      assert f.pattern == globs[0] + [';'] + JoinWith(globs[1..], ';');
      assert ';' in f.pattern && ';' !in Wildcard;
    }
    forall x | x in exts
      ensures x in EntryExtensions(f)
    {
      var i :| 0 <= i < |exts| && exts[i] == x;
      assert globs[i] in Split(f.pattern, ';');
    }
  }
}
