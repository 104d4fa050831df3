/**
 * The conversion step of the tool: how the selected file is classified as an
 * image or a document, how the PDF it becomes is named, and the selection
 * state the pickers and the convert button update.
 */
module Converter {
  import opened Strings
  import opened Paths
  import opened Extensions
  import opened Formats

  datatype Option<T> = None | Some(value: T)

  /** The office suite found at start-up, which exports documents to PDF. */
  datatype Office = Word | Wps

  /** How one press of the convert button ends. */
  datatype Outcome =
    | NoFile
    | NoOutputDir
    | NoOffice
    | ImageFailed
    | DocFailed
    | Converted(pdfPath: string)

  /** `os.path.splitext(file)[1].lower()`: the dotted, lower-cased extension, or empty. */
  function FileExt(file: string): (e: string)
    ensures e == [] || (e[0] == ExtSep && Sep !in e && ExtSep !in e[1..])
    ensures IsLowerCase(e)
  {
    var ext := SplitExt(file).ext;
    LowerIsLowerCase(ext);
    LowerKeepsPunctuation(ext, Sep);
    LowerKeepsPunctuation(ext, ExtSep);
    assert forall k :: 0 <= k < |ext| ==> Lower(ext)[k] != Sep;
    assert forall k :: 1 <= k < |ext| ==> Lower(ext)[k] != ExtSep by {
      forall k | 1 <= k < |ext| ensures Lower(ext)[k] != ExtSep {
        assert ext[k] == ext[1..][k - 1];
      }
    }
    Lower(ext)
  }

  /** The file goes to the image branch exactly when its extension is a supported image extension. */
  predicate IsImage(file: string, imageExts: set<string>) {
    FileExt(file) in imageExts
  }

  /** The stem of the selected file's basename: the basename without its extension. */
  function Stem(file: string): string {
    SplitExt(Basename(file)).root
  }

  /** The name of the PDF: the stem followed by `.pdf`. */
  function OutputName(file: string): (name: string)
    ensures Sep !in name
    ensures |name| >= 4 && name[|name| - 4..] == ".pdf"
  {
    StemHasNoSeparator(file);
    Stem(file) + ".pdf"
  }

  lemma StemHasNoSeparator(file: string)
    ensures Sep !in Stem(file)
  {
    var b := Basename(file);
    assert Stem(file) == b[..|Stem(file)|];
    assert forall c :: c in Stem(file) ==> c in b;
  }

  /**
   * The stem and the extension taken from the whole path fit together: they
   * make up the basename, so the PDF's name is the basename with its
   * extension (if any) replaced by `.pdf`.
   */
  lemma StemAndExtension(file: string)
    ensures Stem(file) + SplitExt(file).ext == Basename(file)
    ensures OutputName(file) == Basename(file)[..|Basename(file)| - |SplitExt(file).ext|] + ".pdf"
  {
    ExtOfBasename(file);
    var b := Basename(file);
    assert b == Stem(file) + SplitExt(b).ext;
    assert b[..|Stem(file)|] == Stem(file);
  }

  /** A file name without an extension keeps its whole name and gains `.pdf`. */
  lemma OutputNameWithoutExtension(file: string)
    requires !HasExtensionDot(Basename(file))
    ensures OutputName(file) == Basename(file) + ".pdf"
  {
    SplitExtNonEmptyIff(file);
    StemAndExtension(file);
  }

  /** `os.path.join(output_path, pdf_name)`. */
  function OutputPath(dir: string, file: string): string {
    JoinPath(dir, OutputName(file))
  }

  /**
   * The PDF lands directly in the output directory: the path is the
   * directory, a separator where one is missing, and the PDF's name, which is
   * therefore the basename of the path.
   */
  lemma OutputPathInDirectory(dir: string, file: string)
    ensures OutputPath(dir, file) == DirPrefix(dir) + OutputName(file)
    ensures OutputPath(dir, file)[..|dir|] == dir
    ensures Basename(OutputPath(dir, file)) == OutputName(file)
  {
    JoinPathBasename(dir, OutputName(file));
  }

  /**
   * What one press of the convert button does for the given state and the
   * answers of the outside world: the image library's save result and the
   * office suite's export result.
   */
  function Attempt(file: string, outDir: string, office: Option<Office>, imageExts: set<string>,
                   imageSaved: bool, docExported: bool): Outcome
  {
    if file == [] then NoFile
    else if outDir == [] then NoOutputDir
    else if IsImage(file, imageExts) then
      if imageSaved then Converted(OutputPath(outDir, file)) else ImageFailed
    else if office == None then NoOffice
    else if docExported then Converted(OutputPath(outDir, file)) else DocFailed
  }

  /**
   * The guards come first and in order: no file, then no output directory,
   * whatever the rest of the state and whatever the outside world would say.
   */
  lemma GuardOrder(file: string, outDir: string, office: Option<Office>, imageExts: set<string>,
                   imageSaved: bool, docExported: bool)
    ensures file == [] <==> Attempt(file, outDir, office, imageExts, imageSaved, docExported) == NoFile
    ensures file != [] && outDir == [] <==> Attempt(file, outDir, office, imageExts, imageSaved, docExported) == NoOutputDir
  {
  }

  /** The missing-office error is raised for documents only, and only when both guards pass. */
  lemma NoOfficeOnlyForDocuments(file: string, outDir: string, office: Option<Office>, imageExts: set<string>,
                                 imageSaved: bool, docExported: bool)
    ensures Attempt(file, outDir, office, imageExts, imageSaved, docExported) == NoOffice <==>
      file != [] && outDir != [] && !IsImage(file, imageExts) && office == None
  {
  }

  /**
   * A conversion succeeds exactly when both guards pass and the branch the
   * extension selects succeeds; the PDF is then the output path.
   */
  lemma ConvertedIff(file: string, outDir: string, office: Option<Office>, imageExts: set<string>,
                     imageSaved: bool, docExported: bool)
    ensures Attempt(file, outDir, office, imageExts, imageSaved, docExported).Converted? <==>
      file != [] && outDir != [] &&
      (if IsImage(file, imageExts) then imageSaved else office != None && docExported)
    ensures Attempt(file, outDir, office, imageExts, imageSaved, docExported).Converted? ==>
      Attempt(file, outDir, office, imageExts, imageSaved, docExported).pdfPath == OutputPath(outDir, file)
  {
  }

  /** Images never need the office suite, and documents never touch the image library. */
  lemma BranchesIndependent(file: string, outDir: string, office: Option<Office>, office': Option<Office>,
                            imageExts: set<string>, imageSaved: bool, imageSaved': bool,
                            docExported: bool, docExported': bool)
    ensures IsImage(file, imageExts) ==>
      Attempt(file, outDir, office, imageExts, imageSaved, docExported) ==
      Attempt(file, outDir, office', imageExts, imageSaved, docExported')
    ensures !IsImage(file, imageExts) ==>
      Attempt(file, outDir, office, imageExts, imageSaved, docExported) ==
      Attempt(file, outDir, office, imageExts, imageSaved', docExported)
  {
  }

  /** Classification ignores case: two paths that lower-case alike go to the same branch. */
  lemma ClassifyIgnoresCase(p: string, q: string, imageExts: set<string>)
    requires Lower(p) == Lower(q)
    ensures FileExt(p) == FileExt(q)
    ensures IsImage(p, imageExts) <==> IsImage(q, imageExts)
  {
    ExtOfLower(p);
    ExtOfLower(q);
  }

  /** A file name `stem + ext` where some character of the stem is not a dot and `ext` is one dotted extension. */
  predicate NamedWith(stem: string, ext: string) {
    HasNonDot(stem, 0, |stem|) && Sep !in stem &&
    |ext| >= 1 && ext[0] == ExtSep && Sep !in ext && ExtSep !in ext[1..]
  }

  /** In any directory, a file `stem + ext` has the extension `ext`, and its branch is decided by `ext` lower-cased. */
  lemma ExtensionDecides(dir: string, stem: string, ext: string, imageExts: set<string>)
    requires NamedWith(stem, ext)
    ensures SplitExt(dir + stem + ext).ext == ext
    ensures IsImage(dir + stem + ext, imageExts) <==> Lower(ext) in imageExts
  {
    var p := dir + stem + ext;
    var dot := |dir| + |stem|;
    assert p[dot] == ExtSep;
    assert forall k :: dot < k < |p| ==> p[k] == ext[1..][k - dot - 1];
    RFindUnique(p, ExtSep, dot);
    assert forall k :: |dir| <= k < dot ==> p[k] == stem[k - |dir|];
    assert RFind(p, Sep) < |dir|;
    var k :| 0 <= k < |stem| && stem[k] != ExtSep;
    assert p[|dir| + k] != ExtSep;
    assert HasNonDot(p, RFind(p, Sep) + 1, dot);
    assert p[dot..] == ext;
  }

  /** Upper- and lower-case `.png` files are images. */
  lemma PngIsImage(dir: string, stem: string)
    requires NamedWith(stem, ".png")
    ensures IsImage(dir + stem + ".png", ImageExtensionSet)
    ensures IsImage(dir + stem + ".PNG", ImageExtensionSet)
  {
    ExtensionDecides(dir, stem, ".png", ImageExtensionSet);
    ExtensionDecides(dir, stem, ".PNG", ImageExtensionSet);
    assert Lower(".png") == ".png";
    assert Lower(".PNG") == ".png";
  }

  /** `.tif` is not in the image table, so such files go to the document branch. */
  lemma TifIsDocument(dir: string, stem: string)
    requires NamedWith(stem, ".tif")
    ensures !IsImage(dir + stem + ".tif", ImageExtensionSet)
    ensures !IsImage(dir + stem + ".TIF", ImageExtensionSet)
  {
    ExtensionDecides(dir, stem, ".tif", ImageExtensionSet);
    ExtensionDecides(dir, stem, ".TIF", ImageExtensionSet);
    assert Lower(".tif") == ".tif";
    assert Lower(".TIF") == ".tif";
    TifIsNotImage();
  }

  /** `.pdf` is a listed document type, so PDF files go to the document branch, which hands them to the office suite. */
  lemma PdfIsDocument(dir: string, stem: string)
    requires NamedWith(stem, ".pdf")
    ensures ".pdf" in DocExtensionSet
    ensures !IsImage(dir + stem + ".pdf", ImageExtensionSet)
  {
    ExtensionDecides(dir, stem, ".pdf", ImageExtensionSet);
    assert Lower(".pdf") == ".pdf";
  }

  /** A file whose last component has no extension dot is a document. */
  lemma NoExtensionIsDocument(file: string)
    requires !HasExtensionDot(Basename(file))
    ensures FileExt(file) == []
    ensures !IsImage(file, ImageExtensionSet)
  {
    SplitExtNonEmptyIff(file);
    assert SplitExt(file).ext == [];
    assert FileExt(file) == Lower([]) == [];
    assert [] !in ImageExtensionSet;
  }

  /** Every supported image extension, and nothing else, sends a file to the image branch. */
  lemma ImageBranchIff(file: string)
    ensures IsImage(file, ImageExtensionSet) <==> FileExt(file) in ExtensionSet(ImageFormats)
  {
    ImageExtensions();
  }

  /** `generate_supported_extensions(SUPPORTED_DOC_FORMATS)`. */
  method ParseDocTable() returns (exts: set<string>)
    ensures exts == DocExtensionSet
  {
    exts := GenerateSupportedExtensions(DocFormats);
    DocumentExtensions();
  }

  /** `generate_supported_extensions(SUPPORTED_IMAGE_FORMATS)`. */
  method ParseImageTable() returns (exts: set<string>)
    ensures exts == ImageExtensionSet
  {
    exts := GenerateSupportedExtensions(ImageFormats);
    ImageExtensions();
  }

  /**
   * The converter window: the selected file, the output directory, the office
   * suite found at start-up, the automation handle of the suite last
   * started, whether the window is still open, and the two extension sets
   * parsed from the filter tables.
   */
  class DocToPdfConverter {
    var currentFile: string
    var outputPath: string
    const officeType: Option<Office>
    var app: Option<Office>
    var windowOpen: bool
    const supportedDocExts: set<string>
    const supportedImageExts: set<string>

    /** Starts with nothing selected and both extension sets parsed from the tables. */
    constructor (office: Option<Office>)
      ensures currentFile == [] && outputPath == [] && app == None && windowOpen
      ensures officeType == office
      ensures supportedDocExts == DocExtensionSet && supportedImageExts == ImageExtensionSet
    {
      officeType := office;
      outputPath := [];
      app := None;
      currentFile := [];
      windowOpen := true;
      var docExts := ParseDocTable();
      var imageExts := ParseImageTable();
      supportedDocExts := docExts;
      supportedImageExts := imageExts;
    }

    /** The document picker: a chosen path becomes the selection; a cancelled dialog (empty path) changes nothing. */
    method SelectDocument(path: string)
      modifies this`currentFile
      ensures currentFile == if path != [] then path else old(currentFile)
    {
      if path != [] {
        currentFile := path;
      }
    }

    /** The image picker: as the document picker, but a file the image library rejects is not selected. */
    method SelectImage(path: string, imageValid: bool)
      modifies this`currentFile
      ensures currentFile == if path != [] && imageValid then path else old(currentFile)
    {
      if path != [] {
        if !imageValid {
          return;
        }
        currentFile := path;
      }
    }

    /** The directory picker: a chosen directory becomes the output directory. */
    method SelectOutputPath(path: string)
      modifies this`outputPath
      ensures outputPath == if path != [] then path else old(outputPath)
    {
      if path != [] {
        outputPath := path;
      }
    }

    /**
     * The convert button. The outcome is `Attempt` of the state on entry; the
     * office suite is started whenever a document passes the guards; after a
     * success the selection is cleared if the user continues, and the window
     * closes otherwise. The output directory never changes.
     */
    method StartConversion(imageSaved: bool, docExported: bool, continueAnswer: bool) returns (outcome: Outcome)
      modifies this`currentFile, this`app, this`windowOpen
      ensures outcome == Attempt(old(currentFile), outputPath, officeType, supportedImageExts, imageSaved, docExported)
      ensures currentFile == if outcome.Converted? && continueAnswer then [] else old(currentFile)
      ensures windowOpen == if outcome.Converted? && !continueAnswer then false else old(windowOpen)
      ensures app == if old(currentFile) != [] && outputPath != [] && !IsImage(old(currentFile), supportedImageExts)
                        && officeType != None
                     then officeType else old(app)
    {
      if currentFile == [] {
        return NoFile;
      }
      if outputPath == [] {
        return NoOutputDir;
      }
      var fileExt := Lower(SplitExt(currentFile).ext);
      var filename := Basename(currentFile);
      var pdfName := SplitExt(filename).root + ".pdf";
      var pdfPath := JoinPath(outputPath, pdfName);
      var isImage := fileExt in supportedImageExts;
      if isImage {
        if !imageSaved {
          return ImageFailed;
        }
      } else {
        if officeType == None {
          return NoOffice;
        }
        app := officeType;
        if !docExported {
          return DocFailed;
        }
      }
      outcome := Converted(pdfPath);
      if continueAnswer {
        currentFile := [];
      } else {
        windowOpen := false;
      }
    }
  }

  /**
   * After a success the user continues from, the next press of the convert
   * button stops at the no-file guard, and the output directory is kept.
   */
  method ConvertThenContinue(c: DocToPdfConverter, imageSaved: bool, docExported: bool)
    returns (first: Outcome, second: Outcome)
    modifies c
    ensures first == Attempt(old(c.currentFile), old(c.outputPath), c.officeType, c.supportedImageExts, imageSaved, docExported)
    ensures first.Converted? ==> second == NoFile && c.outputPath == old(c.outputPath)
  {
    first := c.StartConversion(imageSaved, docExported, true);
    second := c.StartConversion(imageSaved, docExported, true);
  }
}
