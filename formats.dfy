/**
 * The two filter tables of the converter, the extension sets they parse
 * to, and proofs of what those sets contain.
 */
module Formats {
  import opened Extensions

  /** The document filters offered by the document picker. */
  const DocFormats: seq<FileType> := [
    FileType("Word 文档", "*.doc;*.docx"),
    FileType("Word 模板", "*.dot;*.dotx"),
    FileType("启用宏的文档", "*.docm;*.dotm"),
    FileType("富文本格式", "*.rtf"),
    FileType("纯文本", "*.txt"),
    FileType("网页格式", "*.htm;*.html"),
    FileType("OpenDocument", "*.odt"),
    FileType("XML 文档", "*.xml"),
    FileType("PDF 文档", "*.pdf")
  ]

  /** The image filters offered by the image picker. */
  const ImageFormats: seq<FileType> := [
    FileType("JPEG 图片", "*.jpg;*.jpeg"),
    FileType("PNG 图片", "*.png"),
    FileType("BMP 图片", "*.bmp"),
    FileType("GIF 图片", "*.gif"),
    FileType("TIFF 图片", "*.tiff")
  ]

  const ImageExtensionSet: set<string> := {".jpg", ".jpeg", ".png", ".bmp", ".gif", ".tiff"}

  const DocExtensionSet: set<string> :=
    {".doc", ".docx", ".dot", ".dotx", ".docm", ".dotm", ".rtf", ".txt", ".htm", ".html", ".odt", ".xml", ".pdf"}

  /** The extensions each row of the image table is written from. */
  const ImageGroups: seq<seq<string>> := [[".jpg", ".jpeg"], [".png"], [".bmp"], [".gif"], [".tiff"]]

  /** The extensions each row of the document table is written from. */
  const DocGroups: seq<seq<string>> := [
    [".doc", ".docx"], [".dot", ".dotx"], [".docm", ".dotm"], [".rtf"], [".txt"],
    [".htm", ".html"], [".odt"], [".xml"], [".pdf"]
  ]

  /** The elements of a list, as a set. */
  function Elements(xs: seq<string>): set<string> {
    if xs == [] then {} else {xs[0]} + Elements(xs[1..])
  }

  lemma {:induction false} ElementsMember(xs: seq<string>)
    ensures forall x :: x in Elements(xs) <==> x in xs
  {
    if xs != [] {
      ElementsMember(xs[1..]);
      assert xs == [xs[0]] + xs[1..];
    }
  }

  /** Every extension listed in some group. */
  function AllOf(groups: seq<seq<string>>): set<string> {
    if groups == [] then {} else Elements(groups[0]) + AllOf(groups[1..])
  }

  /** A table written row by row as glob lists yields exactly the extensions it lists. */
  lemma {:induction false} GlobTable(formats: seq<FileType>, groups: seq<seq<string>>)
    requires |formats| == |groups|
    requires forall i :: 0 <= i < |groups| ==> |groups[i]| >= 1 && formats[i].pattern == GlobPattern(groups[i])
    requires forall i, j :: 0 <= i < |groups| && 0 <= j < |groups[i]| ==> PlainExtension(groups[i][j])
    ensures ExtensionSet(formats) == AllOf(groups)
  {
    if formats != [] {
      GlobEntry(formats[0], groups[0]);
      ElementsMember(groups[0]);
      GlobTable(formats[1..], groups[1..]);
    }
  }

  lemma ImageRowsAreGlobs()
    ensures |ImageFormats| == |ImageGroups|
    ensures forall i :: 0 <= i < |ImageGroups| ==> |ImageGroups[i]| >= 1 && ImageFormats[i].pattern == GlobPattern(ImageGroups[i])
    ensures forall i, j :: 0 <= i < |ImageGroups| && 0 <= j < |ImageGroups[i]| ==> PlainExtension(ImageGroups[i][j])
  {
    GlobPatternTwo(".jpg", ".jpeg");
    GlobPatternOne(".png");
    GlobPatternOne(".bmp");
    GlobPatternOne(".gif");
    GlobPatternOne(".tiff");
  }

  lemma ImageTableParses()
    ensures ExtensionSet(ImageFormats) == AllOf(ImageGroups)
  {
    ImageRowsAreGlobs();
    GlobTable(ImageFormats, ImageGroups);
  }

  lemma ImageGroupsListed()
    ensures AllOf(ImageGroups) == ImageExtensionSet
  {
  }

  /** The image table parses to exactly six extensions. */
  lemma ImageExtensions()
    ensures ExtensionSet(ImageFormats) == ImageExtensionSet
  {
    ImageTableParses();
    ImageGroupsListed();
  }

  /** The short spelling `.tif` is not an image extension, while `.tiff` is. */
  lemma TifIsNotImage()
    ensures ".tif" !in ImageExtensionSet && ".tiff" in ImageExtensionSet
  {
  }

  lemma DocWordRows()
    ensures DocFormats[0].pattern == GlobPattern(DocGroups[0])
    ensures DocFormats[1].pattern == GlobPattern(DocGroups[1])
    ensures DocFormats[2].pattern == GlobPattern(DocGroups[2])
  {
    GlobPatternTwo(".doc", ".docx");
    GlobPatternTwo(".dot", ".dotx");
    GlobPatternTwo(".docm", ".dotm");
  }

  lemma DocOtherRows()
    ensures DocFormats[3].pattern == GlobPattern(DocGroups[3])
    ensures DocFormats[4].pattern == GlobPattern(DocGroups[4])
    ensures DocFormats[5].pattern == GlobPattern(DocGroups[5])
    ensures DocFormats[6].pattern == GlobPattern(DocGroups[6])
    ensures DocFormats[7].pattern == GlobPattern(DocGroups[7])
    ensures DocFormats[8].pattern == GlobPattern(DocGroups[8])
  {
    GlobPatternOne(".rtf");
    GlobPatternOne(".txt");
    GlobPatternTwo(".htm", ".html");
    GlobPatternOne(".odt");
    GlobPatternOne(".xml");
    GlobPatternOne(".pdf");
  }

  lemma DocGroupsPlain()
    ensures forall i, j :: 0 <= i < |DocGroups| && 0 <= j < |DocGroups[i]| ==> PlainExtension(DocGroups[i][j])
  {
  }

  lemma DocRowsAreGlobs()
    ensures |DocFormats| == |DocGroups|
    ensures forall i :: 0 <= i < |DocGroups| ==> |DocGroups[i]| >= 1 && DocFormats[i].pattern == GlobPattern(DocGroups[i])
    ensures forall i, j :: 0 <= i < |DocGroups| && 0 <= j < |DocGroups[i]| ==> PlainExtension(DocGroups[i][j])
  {
    DocWordRows();
    DocOtherRows();
    DocGroupsPlain();
  }

  lemma DocTableParses()
    ensures ExtensionSet(DocFormats) == AllOf(DocGroups)
  {
    DocRowsAreGlobs();
    GlobTable(DocFormats, DocGroups);
  }

  lemma {:induction false} AllOfConcat(a: seq<seq<string>>, b: seq<seq<string>>)
    ensures AllOf(a + b) == AllOf(a) + AllOf(b)
  {
    if a == [] {
      assert a + b == b;
    } else {
      assert (a + b)[1..] == a[1..] + b;
      AllOfConcat(a[1..], b);
    }
  }

  lemma WordGroupsListed()
    ensures AllOf([[".doc", ".docx"], [".dot", ".dotx"], [".docm", ".dotm"]]) == {".doc", ".docx", ".dot", ".dotx", ".docm", ".dotm"}
  {
  }

  lemma TextGroupsListed()
    ensures AllOf([[".rtf"], [".txt"], [".htm", ".html"]]) == {".rtf", ".txt", ".htm", ".html"}
  {
  }

  lemma OtherGroupsListed()
    ensures AllOf([[".odt"], [".xml"], [".pdf"]]) == {".odt", ".xml", ".pdf"}
  {
  }

  lemma DocGroupsListed()
    ensures AllOf(DocGroups) == DocExtensionSet
  {
    var word := [[".doc", ".docx"], [".dot", ".dotx"], [".docm", ".dotm"]];
    var text := [[".rtf"], [".txt"], [".htm", ".html"]];
    var other := [[".odt"], [".xml"], [".pdf"]];
    assert DocGroups == word + text + other;
    AllOfConcat(word + text, other);
    AllOfConcat(word, text);
    WordGroupsListed();
    TextGroupsListed();
    OtherGroupsListed();
  }

  /** The document table parses to exactly thirteen extensions, `.pdf` among them. */
  lemma DocumentExtensions()
    ensures ExtensionSet(DocFormats) == DocExtensionSet
  {
    DocTableParses();
    DocGroupsListed();
  }

  /** The two sets are disjoint: no extension is listed both as a document and as an image. */
  lemma TablesDisjoint()
    ensures ImageExtensionSet !! DocExtensionSet
  {
  }
}
