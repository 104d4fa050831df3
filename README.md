# docxtopdf in Dafny

`docxtopdf.py` is a desktop tool that turns one document or image at a time into a PDF. The user picks a file and an output directory, then presses the convert button.
- Images are saved as PDF by the image library.
- Documents are exported by Microsoft Word or WPS through COM automation.

This project models the logic underneath that interface and proves properties of it.

- **Strings** (`strings.dfy`): the three string operations the extension parser uses. `str.lower` is `Lower`, `str.replace(c, "")` is `RemoveAll`, and `str.split` is `Split`, with its inverse `JoinWith`.
- **Paths** (`paths.dfy`): `os.path.basename`, `os.path.splitext` and `os.path.join` as pure string functions, with `/` as the separator.
- **Extensions** (`extensions.dfy`): the filter-table rows and `generate_supported_extensions`.
  - It is an imperative method with two nested loops.
  - It is proved equal to the specification function `ExtensionSet`.
  - It is proved to invert the way a row's pattern is written (`GlobEntry`).
- **Formats** (`formats.dfy`): the two filter tables, exactly as written, and proofs of the exact extension sets they parse to.
- **Converter** (`converter.dfy`):
  - how the selected file is classified as an image or a document;
  - how the PDF's name and path are derived;
  - `Attempt`, the outcome of one press of the convert button;
  - the `DocToPdfConverter` class. Its fields are the selection (`currentFile`, `outputPath`), the detected office suite (`officeType`), the automation handle (`app`), whether the window is open, and the two parsed extension sets. Its methods are the three pickers and the convert button.

The outside world enters as parameters:
- the office suite found at start-up;
- the path each dialog returns, where the empty string means cancelled;
- whether the image library accepts a chosen image;
- whether the image save succeeds;
- whether the office suite's export succeeds;
- the user's yes/no answer after a success.

The selected file's extension comes from the whole path. The output name comes from the basename. `StemAndExtension` proves that the two fit together: stem plus extension is the basename.

Classification looks only at the image set. The document set is computed but never consulted. So every file that is not a listed image goes to the office suite: a `.pdf`, a `.tif`, or a file with no extension.

## Model

| member | source | states |
|---|---|---|
| Strings.Lower | docxtopdf.py:147 | `str.lower()`, applied character by character with `LowerChar`; its meaning is stated by `LowerIsLowerCase`, `LowerOfLowerCase`, `LowerAppend` and `LowerSlice` |
| Strings.LowerChar | docxtopdf.py:147 | lower-casing one character yields no capital, maps each ASCII capital to its small letter and leaves every other character unchanged |
| Strings.LowerIsLowerCase | docxtopdf.py:147 | `lower()` keeps the length, leaves no capital, and is idempotent |
| Strings.LowerOfLowerCase | docxtopdf.py:147 | a string without capitals is unchanged by `lower()` |
| Strings.RemoveAll | docxtopdf.py:147 | `replace("*", "")` leaves no `*`, keeps exactly the other characters, and is the identity on strings without `*` |
| Strings.RemoveAllAppend | docxtopdf.py:147 | removal distributes over concatenation, so the kept characters stay in order |
| Strings.Split | docxtopdf.py:146 | `split(';')` yields at least one piece, no piece holds `;`, and joining the pieces with `;` gives the string back |
| Strings.SplitJoin | docxtopdf.py:146 | splitting inverts joining for every non-empty list of delimiter-free pieces |
| Strings.SplitCons | docxtopdf.py:146 | `a;b` with `a` free of `;` splits into `a` followed by the pieces of `b` |
| Paths.RFind | docxtopdf.py:563-568 | the index of the last occurrence of a character, or -1 when it has none |
| Paths.Basename | docxtopdf.py:566 | the basename has no separator, is a suffix of the path, and is preceded by a separator when it is shorter than the path |
| Paths.SplitExt | docxtopdf.py:563-567 | root plus ext is the path; ext is empty or one dot followed by no separator and no dot |
| Paths.SplitExtNonEmptyIff | docxtopdf.py:563 | a path has an extension if and only if its last component has a dot that a non-dot character precedes, so leading dots never start one |
| Paths.SplitExtOfBasename | docxtopdf.py:563-567 | the path's extension is the basename's extension, and the path's root is the directory part followed by the basename's root |
| Paths.SplitExtLower | docxtopdf.py:563 | splitting the lower-cased path gives the lower-cased root and extension |
| Paths.DirPrefix | docxtopdf.py:568 | the result starts with the directory and is at most one character longer; it is the directory itself when that is empty or already ends in a separator, and otherwise ends in a separator |
| Paths.JoinPath | docxtopdf.py:568 | `os.path.join(dir, name)`: an absolute name replaces the directory, otherwise the name follows the directory and one separator where it is missing; stated by `JoinPathBasename` |
| Paths.JoinPathBasename | docxtopdf.py:568 | joining a separator-free name onto a directory appends it after the directory prefix, and the name is the basename of the result |
| Extensions.EntryExtensions | docxtopdf.py:144-147 | what one table row adds: nothing for `*.*`, else every normalised `;`-segment; stated by `GlobEntry` and `WildcardContributesNothing` |
| Extensions.ExtensionSet | docxtopdf.py:143-148 | the set the loops build: the union over the rows; stated by `ExtensionSetMember`, `ExtensionSetConcat` and `ExtensionSetWellFormed`, and equal to the result of `GenerateSupportedExtensions` |
| Extensions.Normalize | docxtopdf.py:147 | a normalised segment is lower case and contains no `*` |
| Extensions.GenerateSupportedExtensions | docxtopdf.py:140-148 | the nested loops return exactly `ExtensionSet(formats)`: each non-wildcard row contributes every normalised `;`-segment |
| Extensions.ExtensionSetConcat | docxtopdf.py:143-147 | the set of two tables one after the other is the union of their sets |
| Extensions.ExtensionSetWellFormed | docxtopdf.py:146-147 | every element of a generated set is lower case and contains no `*` |
| Extensions.ExtensionSetMember | docxtopdf.py:143-147 | an extension is in the set if and only if some row contributes it |
| Extensions.WildcardContributesNothing | docxtopdf.py:144-145 | a `*.*` row changes nothing, wherever it stands in the table |
| Extensions.GlobEntry | docxtopdf.py:146-147 | a row written as `*x;*y;...` from plain extensions contributes exactly those extensions |
| Formats.ImageTableParses | docxtopdf.py:27-33 | the image table parses to the union of the extensions its rows are written from |
| Formats.DocTableParses | docxtopdf.py:14-24 | the document table parses to the union of the extensions its rows are written from |
| Formats.ImageExtensions | docxtopdf.py:27-33 | the image table parses to exactly `.jpg .jpeg .png .bmp .gif .tiff` |
| Formats.TifIsNotImage | docxtopdf.py:27-33 | `.tif` is not a supported image extension; `.tiff` is |
| Formats.DocumentExtensions | docxtopdf.py:14-24 | the document table parses to exactly its thirteen extensions, `.pdf` among them |
| Formats.TablesDisjoint | docxtopdf.py:14-33 | no extension is both a document and an image extension |
| Converter.ParseDocTable | docxtopdf.py:137 | the document set built at start-up is the thirteen document extensions |
| Converter.ParseImageTable | docxtopdf.py:138 | the image set built at start-up is the six image extensions |
| Converter.FileExt | docxtopdf.py:563 | the normalised extension is empty or one dot followed by no separator and no further dot, and it is lower case |
| Converter.IsImage | docxtopdf.py:571 | the branch test: the normalised extension is in the image set; stated by `ClassifyIgnoresCase`, `ExtensionDecides`, `NoExtensionIsDocument` and `ImageBranchIff` |
| Converter.Stem | docxtopdf.py:567 | the basename without its extension; stated by `StemHasNoSeparator` and `StemAndExtension` |
| Converter.StemHasNoSeparator | docxtopdf.py:566-567 | the stem of a basename contains no separator |
| Converter.OutputPath | docxtopdf.py:568 | the PDF's path; stated by `OutputPathInDirectory` |
| Converter.OutputName | docxtopdf.py:566-567 | the PDF's name ends in `.pdf` and has no separator |
| Converter.StemAndExtension | docxtopdf.py:563-567 | the stem plus the path's extension is the basename, so the PDF's name is the basename with its extension replaced by `.pdf` |
| Converter.OutputNameWithoutExtension | docxtopdf.py:566-567 | a file name without an extension dot keeps its whole name and gains `.pdf` |
| Converter.OutputPathInDirectory | docxtopdf.py:568 | the PDF's path is the output directory, a separator where one is missing, and the PDF's name, which is its basename |
| Converter.Attempt | docxtopdf.py:552-605 | the outcome of one press of the convert button; stated by `GuardOrder`, `NoOfficeOnlyForDocuments`, `ConvertedIff` and `BranchesIndependent`, and tied to the class by `StartConversion` |
| Converter.GuardOrder | docxtopdf.py:552-559 | the no-file outcome occurs if and only if no file is selected, whatever the output directory; the no-directory outcome occurs if and only if a file is selected and no directory is |
| Converter.NoOfficeOnlyForDocuments | docxtopdf.py:571-582 | the missing-office outcome occurs if and only if both guards pass, the file is not an image and no suite was detected |
| Converter.ConvertedIff | docxtopdf.py:552-605 | a conversion succeeds if and only if both guards pass and the selected branch succeeds (image saved, or suite present and export succeeded); the PDF is then the output path |
| Converter.BranchesIndependent | docxtopdf.py:573-602 | an image's outcome does not depend on the office suite or the export, and a document's outcome does not depend on the image save |
| Converter.ClassifyIgnoresCase | docxtopdf.py:563-571 | two paths equal after lower-casing have the same normalised extension and go to the same branch |
| Converter.ExtensionDecides | docxtopdf.py:563-571 | a file `stem + ext`, in any directory, where the stem has no separator and some character that is not a dot (so `.x` counts as a stem) and `ext` is one dotted extension, has extension `ext`; it is an image if and only if `ext` lower-cased is in the image set |
| Converter.PngIsImage | docxtopdf.py:571-576 | `x.png` and `x.PNG` both go to the image branch |
| Converter.TifIsDocument | docxtopdf.py:571-577 | `x.tif` and `x.TIF` go to the document branch |
| Converter.PdfIsDocument | docxtopdf.py:571-577 | `.pdf` is a listed document type (line 23), and `x.pdf` goes to the document branch, where the office suite receives it |
| Converter.NoExtensionIsDocument | docxtopdf.py:563-577 | a file without an extension dot has the empty extension and goes to the document branch |
| Converter.ImageBranchIff | docxtopdf.py:571 | a file is classified as an image if and only if its normalised extension is in the set parsed from the image table |
| Converter.DocToPdfConverter.constructor | docxtopdf.py:134-138 | nothing is selected, no suite is started, and the two sets are exactly the parsed document and image extensions |
| Converter.DocToPdfConverter.SelectDocument | docxtopdf.py:432-435 | a chosen path becomes the selection; a cancelled dialog changes nothing |
| Converter.DocToPdfConverter.SelectImage | docxtopdf.py:461-468 | a chosen, valid image becomes the selection; a cancelled dialog or an invalid image changes nothing |
| Converter.DocToPdfConverter.SelectOutputPath | docxtopdf.py:475-476 | a chosen directory becomes the output directory; a cancelled dialog changes nothing |
| Converter.DocToPdfConverter.StartConversion | docxtopdf.py:550-611 | the outcome is `Attempt` of the entry state; the suite is started when a document passes the guards; after a success the selection is cleared if the user continues, and the window closes otherwise; the output directory never changes |
| Converter.ConvertThenContinue | docxtopdf.py:605-606 | after a success the user continues from, the next press stops at the no-file guard and keeps the output directory |

## Left out

- The Tkinter interface is not modelled: window layout, styles, the tree view, the status bar, the help and contact windows, `webbrowser`, and the text of every message box. Outcomes are the `Outcome` datatype instead.
- The file-dialog filter lists that `select_document` and `select_image` build from the tables are not modelled. They only shape what the dialogs show. The path a dialog returns is a parameter, and a cancelled dialog is the empty string.
- `detect_office` is a COM call. Its result is the constructor's `office` parameter.
- `is_valid_image` and `convert_image_to_pdf` are image-library calls. Their results are the `imageValid` and `imageSaved` parameters.
- The COM sequence of the document branch is the `docExported` parameter. That sequence is `CoInitialize`, `Dispatch`, `Open`, `SaveAs`, `Close`, then `Quit` and `CoUninitialize` in the `finally` block.
  - `Dispatch` is taken always to succeed, so `app` becomes the detected suite whenever a document passes the guards.
  - If `Dispatch` fails in the source, `app` keeps its previous value, and `Quit` is then called on that old handle. This is not modelled.
  - `Quit` does not reset `app` in the source, and the model does not reset it either.
- The outer `except Exception` (docxtopdf.py:613-615) only reports errors raised by the calls above, which are not modelled. It is not modelled.
- `master.destroy()` is modelled only as `windowOpen` becoming false. Nothing is modelled after the window closes.
- Strings.LowerChar: lowers only the ASCII capitals. Python's `str.lower` also lowers other Unicode letters. Every extension in the tables is ASCII, so the parsed sets are unaffected. The classification of a path with non-ASCII capitals in its extension may differ.
- Paths.Basename: uses `/` as the only separator, which is the form the file dialogs return. On Windows, `ntpath` also splits at `\` and after a drive letter such as `C:`. The same applies to `Paths.SplitExt`.
- Paths.JoinPath: inserts `/`. On Windows, `ntpath.join` inserts `\` and also handles drive letters. So the modelled PDF path may differ from the real one in its separator.
- `supported_doc_exts` is computed at start-up (docxtopdf.py:137) and kept as a field, but the source never reads it. The model proves its contents and likewise never uses it.
