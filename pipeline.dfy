/**
 * `jpeg_to_pdf_with_text` and `batch_jpeg_to_pdf`: one image file to a
 * searchable document, and a directory listing to a map of per-file outcomes.
 * The filesystem, the image library, the OCR engine and the PDF writer are
 * collaborators, given as functions of the paths they receive.
 */
module Pipeline {
  import opened Wrappers
  import opened PyStr
  import opened Threshold
  import opened OcrSearch
  import opened Layout

  /** What the pipeline asks of the outside world. */
  datatype Environment = Environment(
    /** `os.path.exists`. */
    fileExists: string -> bool,
    /** Opening the image and preprocessing it into the enhanced greyscale image; None when either raises. */
    enhance: string -> Option<Grid>,
    /** The OCR engine. */
    ocr: Engine,
    /** Whether opening the image again and drawing it on the first page succeeds. */
    placeImage: string -> bool,
    /** Writing the document to a path: the message of the error raised, if any. */
    save: string -> Result<(), string>
  )

  /** The message of the `FileNotFoundError` raised for a missing image. */
  function NotFound(jpegPath: string): string
  {
    "JPEG file not found: " + jpegPath
  }

  /**
   * The document as saved: a first page holding the image when it was
   * drawn (blank otherwise), then the text section.
   */
  function Document(text: string, imageDrawn: bool): (pages: seq<Page>)
  {
    [Page(imageDrawn, [])] + Paginate(TextItems(text), Letter)
  }

  /**
   * What `jpeg_to_pdf_with_text` returns: the missing image is reported
   * before anything else; otherwise the extracted text, unless writing the
   * document raises.
   */
  function ConvertResult(env: Environment, jpegPath: string, outputPdfPath: string): Result<string, string>
  {
    if !env.fileExists(jpegPath) then Failure(NotFound(jpegPath))
    else match env.save(outputPdfPath)
      case Failure(error) => Failure(error)
      case Success(_) => Success(ExtractedText(env.enhance(jpegPath), env.ocr))
  }

  /**
   * `jpeg_to_pdf_with_text`: fails before anything else when the image is
   * missing; otherwise extracts the text, lays out the document, saves it
   * and returns the text, whether or not the image was included.
   * `ConvertResult` is its specification.
   */
  method JpegToPdfWithText(env: Environment, jpegPath: string, outputPdfPath: string, includeImage: bool)
    returns (r: Result<string, string>, saved: Option<seq<Page>>)
    ensures r == ConvertResult(env, jpegPath, outputPdfPath)
    ensures r.Success? ==> IsStripped(r.value)
    ensures saved == if r.Success? then Some(Document(r.value, includeImage && env.placeImage(jpegPath))) else None
  {
    if !env.fileExists(jpegPath) {
      return Failure(NotFound(jpegPath)), None;
    }
    var text := ExtractText(env.enhance(jpegPath), env.ocr);
    var c := new Canvas();
    if includeImage {
      // A failure to draw the image is reported and otherwise ignored.
      if env.placeImage(jpegPath) {
        c.DrawImage();
      }
    }
    var document := FinishDocument(c, text);
    match env.save(outputPdfPath) {
      case Success(_) =>
        r, saved := Success(text), Some(document);
      case Failure(error) =>
        r, saved := Failure(error), None;
    }
  }

  /** The text section on a fresh canvas, then `save()`: the document is the first page and the text pages. */
  method FinishDocument(c: Canvas, text: string) returns (document: seq<Page>)
    requires c.pages == []
    modifies c
    ensures document == [old(c.current)] + Paginate(TextItems(text), Letter)
  {
    ghost var first := c.current;
    AddTextSection(c, text, Letter);
    assert c.current != Blank;
    assert c.pages + [c.current] == [first] + Paginate(TextItems(text), Letter);
    document := c.Save();
  }

  /**
   * The document's page count: the image page, then one page per 49 lines
   * of the text section (the header and the blank line count as lines).
   * With no text it has exactly two pages.
   */
  lemma {:induction false} DocumentPageCount(text: string, imageDrawn: bool)
    ensures Letter.PerPage() == 49
    ensures |Document(text, imageDrawn)| == 1 + (|TextItems(text)| + 48) / 49
    ensures text == "" ==> |Document(text, imageDrawn)| == 2
  {
    PaginatePageCount(TextItems(text), Letter);
  }

  /**
   * The text pages read, in order, the header, an empty line and every
   * line of the text, unsplit; joining those body lines with '\n' gives
   * the text back. With no text they read the placeholder alone. Every
   * line is written between the margins.
   */
  lemma {:induction false} DocumentText(text: string, imageDrawn: bool)
    ensures var doc := Document(text, imageDrawn);
            Texts(doc[1..]) == TextItems(text)
            && (text != "" ==> Join(Texts(doc[1..])[2..], '\n') == text)
            && (text == "" ==> Texts(doc[1..]) == [Placeholder])
            && forall p, i :: 1 <= p < |doc| && 0 <= i < |doc[p].lines| ==>
                 Letter.margin <= doc[p].lines[i].y <= Letter.Top()
  {
    var doc := Document(text, imageDrawn);
    var pages := Paginate(TextItems(text), Letter);
    assert doc[1..] == pages;
    PaginateKeepsItems(TextItems(text), Letter);
    PaginateWithinMargins(TextItems(text), Letter);
    if text != "" {
      assert TextItems(text)[2..] == Split(text, '\n');
      JoinSplit(text, '\n');
    }
    forall p, i | 1 <= p < |doc| && 0 <= i < |doc[p].lines|
      ensures Letter.margin <= doc[p].lines[i].y <= Letter.Top()
    {
      assert doc[p] == pages[p - 1];
    }
  }

  /** What the batch records for one file: where its document went and its text, or the error. */
  datatype FileOutcome = Converted(pdfPath: string, extractedText: string) | Failed(error: string)

  /** The batch's filter: the lower-cased name ends in ".jpg" or ".jpeg". */
  predicate IsJpegName(filename: string)
  {
    EndsWith(Lower(filename), ".jpg") || EndsWith(Lower(filename), ".jpeg")
  }

  /** `os.path.splitext(filename)[0] + '.pdf'`. */
  function PdfName(filename: string): string
  {
    SplitExt(filename).0 + ".pdf"
  }

  /**
   * The single-file pipeline as the batch sees it: the result of converting
   * the image at one path into a document at another.
   */
  type Converter = (string, string) -> Result<string, string>

  /** The outcome the batch records for one listed file. */
  function Outcome(convert: Converter, inputFolder: string, outputFolder: string, filename: string): (o: FileOutcome)
  {
    var pdfPath := PathJoin(outputFolder, PdfName(filename));
    match convert(PathJoin(inputFolder, filename), pdfPath)
    case Success(text) => Converted(pdfPath, text)
    case Failure(error) => Failed(error)
  }

  /**
   * The body of the batch loop for one image name: derive both paths,
   * convert, and record either the document path and text or the error.
   * `Outcome` is its specification.
   */
  method ConvertListedFile(convert: Converter, inputFolder: string, outputFolder: string, filename: string)
    returns (outcome: FileOutcome)
    ensures outcome == Outcome(convert, inputFolder, outputFolder, filename)
  {
    var jpegPath := PathJoin(inputFolder, filename);
    var pdfPath := PathJoin(outputFolder, PdfName(filename));
    match convert(jpegPath, pdfPath) {
      case Success(text) =>
        outcome := Converted(pdfPath, text);
      case Failure(error) =>
        outcome := Failed(error);
    }
  }

  /**
   * `batch_jpeg_to_pdf` over a directory listing: one entry per listed
   * image name and none for other names, each recording that file's own
   * outcome, whatever happened to the others.
   */
  method BatchJpegToPdf(convert: Converter, inputFolder: string, outputFolder: string, listing: seq<string>)
    returns (results: map<string, FileOutcome>)
    ensures results.Keys == set f | f in listing && IsJpegName(f)
    ensures forall f :: f in results ==> results[f] == Outcome(convert, inputFolder, outputFolder, f)
  {
    results := map[];
    for i := 0 to |listing|
      invariant results.Keys == JpegNames(listing[..i])
      invariant forall f :: f in results ==> results[f] == Outcome(convert, inputFolder, outputFolder, f)
    {
      var filename := listing[i];
      assert listing[..i + 1] == listing[..i] + [filename];
      JpegNamesSnoc(listing[..i], filename);
      if IsJpegName(filename) {
        var outcome := ConvertListedFile(convert, inputFolder, outputFolder, filename);
        results := results[filename := outcome];
      }
    }
    assert listing[..|listing|] == listing;
    JpegNamesAre(listing);
  }

  /** The image names of a listing, collected in listing order. */
  function JpegNames(names: seq<string>): set<string>
  {
    if names == [] then {}
    else
      var last := names[|names| - 1];
      JpegNames(names[..|names| - 1]) + if IsJpegName(last) then {last} else {}
  }

  /** One more listed name is collected exactly when it passes the filter. */
  lemma {:induction false} JpegNamesSnoc(names: seq<string>, name: string)
    ensures JpegNames(names + [name]) == JpegNames(names) + if IsJpegName(name) then {name} else {}
  {
    assert (names + [name])[..|names|] == names;
  }

  /** The collected names are exactly the listed names that pass the filter. */
  lemma {:induction false} JpegNamesAre(names: seq<string>)
    ensures JpegNames(names) == set f | f in names && IsJpegName(f)
  {
    if names != [] {
      var front := names[..|names| - 1];
      JpegNamesAre(front);
      assert names == front + [names[|names| - 1]];
    }
  }

  /** In a name without '/' that ends in ".jpg" or ".jpeg" (any case), that suffix starts at the last '.'. */
  lemma {:induction false} JpegSuffixDot(filename: string, ext: string)
    requires ext == ".jpg" || ext == ".jpeg"
    requires '/' !in filename && EndsWith(Lower(filename), ext)
    ensures RFind(filename, '/') == -1
    ensures RFind(filename, '.') == |filename| - |ext|
  {
    var d := |filename| - |ext|;
    var lower := Lower(filename);
    assert lower[d] == ext[0] == '.';
    assert filename[d] == '.';
    forall k | d < k < |filename|
      ensures filename[k] != '.'
    {
      assert lower[k] == ext[k - d];
    }
  }

  /**
   * Renaming a listed image: when something other than dots precedes its
   * ".jpg" or ".jpeg" suffix (in any case), the suffix is replaced by ".pdf".
   */
  lemma {:induction false} PdfNameOfJpeg(filename: string, ext: string)
    requires ext == ".jpg" || ext == ".jpeg"
    requires '/' !in filename && EndsWith(Lower(filename), ext)
    requires exists k :: 0 <= k < |filename| - |ext| && filename[k] != '.'
    ensures PdfName(filename) == filename[..|filename| - |ext|] + ".pdf"
  {
    JpegSuffixDot(filename, ext);
  }

  /**
   * The other listed images: when only dots precede the ".jpg" or ".jpeg"
   * suffix (".jpg", "..JPEG"), `splitext` finds no extension and ".pdf" is
   * appended to the whole name.
   */
  lemma {:induction false} PdfNameOfDotsJpeg(filename: string, ext: string)
    requires ext == ".jpg" || ext == ".jpeg"
    requires '/' !in filename && EndsWith(Lower(filename), ext)
    requires forall k :: 0 <= k < |filename| - |ext| ==> filename[k] == '.'
    ensures IsJpegName(filename)
    ensures PdfName(filename) == filename + ".pdf"
  {
    JpegSuffixDot(filename, ext);
    assert !exists k :: 0 <= k < |filename| - |ext| && filename[k] != '.';
  }

  /** Lower-casing a name that ends in ".jpg" or ".jpeg" keeps that suffix, so the name is listed. */
  lemma {:induction false} LowerKeepsJpegSuffix(stem: string, ext: string)
    requires ext == ".jpg" || ext == ".jpeg"
    ensures EndsWith(Lower(stem + ext), ext)
    ensures IsJpegName(stem + ext)
  {
    var f := stem + ext;
    forall i | 0 <= i < |ext| ensures Lower(f)[|stem| + i] == ext[i] {
      assert f[|stem| + i] == ext[i];
      assert !('A' <= ext[i] <= 'Z');
    }
    assert Lower(f)[|stem|..] == ext;
  }

  /** A stem with something other than dots, followed by a lower-case suffix, is renamed to stem + ".pdf". */
  lemma {:induction false} PdfNameOfStem(stem: string, ext: string)
    requires ext == ".jpg" || ext == ".jpeg"
    requires '/' !in stem
    requires exists k :: 0 <= k < |stem| && stem[k] != '.'
    ensures IsJpegName(stem + ext)
    ensures PdfName(stem + ext) == stem + ".pdf"
  {
    var f := stem + ext;
    LowerKeepsJpegSuffix(stem, ext);
    assert PdfName(f) == f[..|stem|] + ".pdf" by {
      assert exists j :: 0 <= j < |f| - |ext| && f[j] != '.' by {
        var k :| 0 <= k < |stem| && stem[k] != '.';
        assert f[k] == stem[k];
      }
      assert '/' !in ext;
      PdfNameOfJpeg(f, ext);
    }
    assert f[..|stem|] == stem;
  }

  /**
   * "photo.jpg" and "photo.jpeg" are both listed images and are given the
   * same document name, "photo.pdf": the batch writes both documents to the
   * same path, and the second overwrites the first.
   */
  lemma {:induction false} JpgAndJpegShareDocument(stem: string)
    requires '/' !in stem
    requires exists k :: 0 <= k < |stem| && stem[k] != '.'
    ensures IsJpegName(stem + ".jpg") && IsJpegName(stem + ".jpeg")
    ensures PdfName(stem + ".jpg") == stem + ".pdf"
    ensures PdfName(stem + ".jpeg") == stem + ".pdf"
  {
    PdfNameOfStem(stem, ".jpg");
    PdfNameOfStem(stem, ".jpeg");
  }

  /** A name without '/' is renamed to a non-empty name without '/'. */
  lemma {:induction false} PdfNameIsBasename(filename: string)
    requires '/' !in filename
    ensures PdfName(filename) != [] && '/' !in PdfName(filename)
  {
    var parts := SplitExt(filename);
    assert parts.0 + parts.1 == filename;
    assert '/' !in ".pdf";
  }

  /**
   * The document path the batch records for a listed name is the output
   * folder joined with the document name, and that name is its last
   * component: whatever the folder, the path ends with the name and its
   * last '/' comes right before it.
   */
  lemma {:induction false} DocumentPathEndsWithName(convert: Converter, inputFolder: string, outputFolder: string, filename: string)
    requires '/' !in filename
    ensures var name := PdfName(filename);
            var o := Outcome(convert, inputFolder, outputFolder, filename);
            o.Converted? ==>
              |name| <= |o.pdfPath| && o.pdfPath[|o.pdfPath| - |name|..] == name
              && RFind(o.pdfPath, '/') == |o.pdfPath| - |name| - 1
  {
    PdfNameIsBasename(filename);
    PathJoinBasename(outputFolder, PdfName(filename));
  }

  /**
   * With the pipeline as converter, a listed image that exists but cannot
   * be opened or preprocessed is still converted, with "" as its text; an
   * entry fails only when the image is missing or writing the document raises.
   */
  lemma {:induction false} BatchOutcomeOfPipeline(env: Environment, inputFolder: string, outputFolder: string, filename: string)
    ensures var jpegPath := PathJoin(inputFolder, filename);
            var pdfPath := PathJoin(outputFolder, PdfName(filename));
            var o := Outcome((j, p) => ConvertResult(env, j, p), inputFolder, outputFolder, filename);
            (o.Failed? <==> !env.fileExists(jpegPath) || env.save(pdfPath).Failure?)
            && (!env.fileExists(jpegPath) ==> o == Failed(NotFound(jpegPath)))
            && (env.fileExists(jpegPath) && env.enhance(jpegPath).None? && env.save(pdfPath).Success? ==>
                  o == Converted(pdfPath, ""))
  {
  }
}
