# img2pdf: a verified model of the image-to-searchable-PDF pipeline

`img2pdf.py` turns a JPEG photograph into a PDF. It works in three steps:

- It reads the photograph's text with Tesseract OCR.
- It writes a document with the image on the first page and the text on the pages after it.
- It returns the text.

A batch driver applies that pipeline to every JPEG name in a directory listing. It records one success or failure entry per file.

This project models the logic of that pipeline in Dafny and proves what it promises. It has six modules:

- `Wrappers` holds `Option` and `Result`.
- `PyStr` holds the Python string and path operations the program uses: `strip`, `split('\n')` with `'\n'.join` as its inverse, ASCII `lower`, `endswith`, `os.path.splitext` and POSIX `os.path.join`.
- `Threshold` models the binary thresholding `(img_array > 128) * 255`, as a function over a grid of 8-bit samples.
- `OcrSearch` models the candidate search of `extract_text_from_jpeg`:
  - The nested loop is a method, `Search`.
  - It is proved equal to a fold, `Best`, over the engine's answers in attempt order.
  - The fold is proved to meet the selection rule, and that rule determines the result: the longest stripped answer, from the earliest attempt that reaches that length.
- `Layout` models ReportLab's canvas and text objects as classes, and the text-section loop as methods (`AddTextSection`, `WriteLines`).
  - These methods are proved against a reference layout, `Paginate`, which cuts the lines into pages of `PerPage()` lines each.
  - Vertical positions are exact integers in tenths of a point. US Letter is 7920 high with a 500 margin, and the 12-point font's leading is 144, so 49 lines fit on a page.
- `Pipeline` models `jpeg_to_pdf_with_text` and `batch_jpeg_to_pdf`.
  - The outside world is an `Environment` of functions: whether a path exists, the preprocessed image (or `None` when opening or preprocessing raised), the OCR engine, whether drawing the image succeeds, and whether saving succeeds.
  - The batch receives the per-file pipeline as an abstract `Converter`. `BatchOutcomeOfPipeline` instantiates it with the real pipeline.

Behaviour the model follows as the code is written:

- An image that exists but cannot be opened or preprocessed does not make the conversion fail. `extract_text_from_jpeg` catches the error and returns `""`, so the file is converted with the placeholder text (`BatchOutcomeOfPipeline`).
- The text section always begins with `showPage()`. With `include_image=False`, the first page of the document is therefore blank, although the comment at line 117 says the text goes "at the top if no image".
- The header line and the empty line after it count toward the 49 lines of the first text page (`DocumentPageCount`).
- Among the failures the model covers, a conversion reports a missing image (checked before anything else) and an error raised while writing the document. An error raised by a diagnostic `print` is not covered (see "Left out").
- "photo.jpg" and "photo.jpeg" in the same folder are both converted to "photo.pdf", so the second document written replaces the first, while both entries record that path (`JpgAndJpegShareDocument`).

## Model

| member | source | states |
|---|---|---|
| Threshold.BinarizeSamples | img2pdf.py:47-54 | thresholding keeps the image rectangular; every output sample is 0 or 255; a sample is 255 exactly when the input sample is above 128 and 0 exactly when it is at most 128 |
| Threshold.BinarizeFixesTwoLevel | img2pdf.py:50-51 | an image of only 0 and 255 samples is unchanged by thresholding |
| Threshold.BinarizeIdempotent | img2pdf.py:50-54 | thresholding twice gives the same image as thresholding once |
| PyStr.StripIsRStripOfLStrip | img2pdf.py:73-74 | `s.strip()` equals `s.lstrip().rstrip()` |
| PyStr.StripIsStripped | img2pdf.py:73-74 | the stripped text neither starts nor ends with whitespace |
| PyStr.StripIsSlice | img2pdf.py:73-74 | the stripped text is the contiguous slice of `s` that starts where the leading whitespace ends |
| PyStr.StripDropsSpaces | img2pdf.py:73-74 | every character before and after that slice is whitespace |
| PyStr.StripIdempotent | img2pdf.py:73-74 | stripping stripped text changes nothing |
| PyStr.StripEmpty | img2pdf.py:73 | the stripped text is empty exactly when every character is whitespace |
| PyStr.Split | img2pdf.py:133 | `split('\n')` yields at least one line, and no line contains the separator |
| PyStr.JoinSplit | img2pdf.py:133 | joining the split lines with the separator gives the text back |
| PyStr.SplitJoin | img2pdf.py:133 | splitting a join of separator-free lines gives the lines back |
| PyStr.Lower | img2pdf.py:163 | lowercasing keeps the length and maps each character on its own |
| PyStr.SplitExt | img2pdf.py:165 | stem and extension concatenate to the name; a non-empty extension starts with '.' and holds no other '.' and no '/' |
| PyStr.PathJoinBasename | img2pdf.py:164-166 | joining a folder and a non-empty name without '/' gives a path that ends with the name, and whose last '/' comes right before the name |
| OcrSearch.AttemptsLength | img2pdf.py:69-70 | the nested loop makes one attempt per image and configuration |
| OcrSearch.AttemptsAt | img2pdf.py:69-72 | attempt number `i * |configs| + j` is image `i` under configuration `j`: images in the outer loop |
| OcrSearch.SourceAttemptOrder | img2pdf.py:57-72 | exactly 14 attempts: the enhanced image under psm 6, 3, 4, 7, 8, 11, 12 in that order, then the binary image likewise |
| OcrSearch.Search | img2pdf.py:68-78 | the nested loop, which skips a raising call and replaces the best text only with a strictly longer stripped answer, returns the fold `Best` of the answers in attempt order |
| OcrSearch.KeepSelects | img2pdf.py:71-78 | one step of the loop preserves the selection rule |
| OcrSearch.BestSelects | img2pdf.py:68-80 | the returned text is as long as every stripped successful answer; when not empty, it is the stripped answer of an attempt before which every successful answer was strictly shorter |
| OcrSearch.SelectsUnique | img2pdf.py:68-80 | no other text meets that rule, so the rule determines the result |
| OcrSearch.BestEmpty | img2pdf.py:71-80 | the result is "" exactly when every call raised or read only whitespace |
| OcrSearch.BestIsStripped | img2pdf.py:73-80 | the returned text is stripped |
| OcrSearch.ExtractText | img2pdf.py:13-83 | a failure while opening or preprocessing yields ""; otherwise the search runs over the enhanced image and its thresholded copy under the seven configurations; the text returned is stripped |
| Layout.Geometry.PerPage | img2pdf.py:124-140 | at least two lines fit on a page; the last line that fits sits at or above the bottom margin, and after it the cursor is below the margin |
| Layout.CursorBelowMargin | img2pdf.py:135 | after `k` lines on a page, the cursor is below the margin exactly when `k` is the page's capacity |
| Layout.TextObject.constructor | img2pdf.py:125-126 | a text object starts with no lines and the cursor at the given height |
| Layout.TextObject.TextLine | img2pdf.py:140 | `textLine` writes the line at the cursor and moves the cursor down by one leading |
| Layout.Canvas.constructor | img2pdf.py:95 | a new canvas has no finished pages and a blank current page |
| Layout.Canvas.DrawImage | img2pdf.py:113 | the image is drawn on the current page; finished pages are untouched |
| Layout.Canvas.DrawText | img2pdf.py:136 | the text object's lines are appended to the current page |
| Layout.Canvas.ShowPage | img2pdf.py:123 | the current page is finished, even when blank, and a blank page begins |
| Layout.Canvas.Save | img2pdf.py:151 | a current page with content is finished first; the document is the finished pages |
| Layout.PaginateSnoc | img2pdf.py:134-140 | one more line goes on the last page while it holds fewer lines than the capacity, at one leading below the previous line, and otherwise at the top of a new page |
| Layout.LayoutStep | img2pdf.py:135-140 | one iteration of the line loop, with or without a page break, extends the layout by that line |
| Layout.PaginateKeepsItems | img2pdf.py:128-140 | reading the pages in order gives back every line written, none dropped, repeated, reordered, split or merged |
| Layout.PaginateWithinMargins | img2pdf.py:124-140 | no page holds more lines than its capacity; line `i` of a page sits at `top - i * leading`, between the bottom margin and the top |
| Layout.PaginatePageCount | img2pdf.py:134-142 | `N` lines take `ceil(N / capacity)` pages |
| Layout.WriteLines | img2pdf.py:133-141 | the line loop, which draws the text object, finishes the page and begins a new object whenever the cursor is below the margin, produces the reference layout of the lines written so far plus the new ones |
| Layout.AddTextSection | img2pdf.py:121-149 | a new page begins, then the pages hold the header, an empty line and every line of the text, or the placeholder alone when the text is empty, laid out as `Paginate` does |
| Pipeline.FinishDocument | img2pdf.py:121-151 | the saved document is the first page followed by the text pages |
| Pipeline.JpegToPdfWithText | img2pdf.py:86-152 | a missing image fails with "JPEG file not found: " and the path, before anything is extracted or written; otherwise the result is the stripped extracted text, whatever `include_image` is, unless saving raises; the saved document is the image page (drawn only when asked for and the drawing succeeded) followed by the text pages |
| Pipeline.DocumentPageCount | img2pdf.py:121-151 | a document has one first page plus `ceil((lines + 2) / 49)` text pages for non-empty text; with no text it has exactly two pages |
| Pipeline.DocumentText | img2pdf.py:121-149 | the text pages read the header, an empty line and the text's lines in order; joining those lines with '\n' gives the text; with no text they read only the placeholder; every line is between the margins |
| Pipeline.ConvertListedFile | img2pdf.py:164-179 | one iteration of the batch records the document path and the text on success, and the error message on failure |
| Pipeline.BatchJpegToPdf | img2pdf.py:155-181 | the result has exactly one entry per listed name whose lower-cased form ends in ".jpg" or ".jpeg", none for any other name, and each entry is that file's own outcome whatever happened to the others |
| Pipeline.JpegNamesAre | img2pdf.py:162-163 | the names the loop collects are exactly the listed names that pass the filter |
| Pipeline.PdfNameOfJpeg | img2pdf.py:165 | for a name with something other than dots before its ".jpg" or ".jpeg" suffix, in any case, the document name replaces that suffix by ".pdf" |
| Pipeline.PdfNameOfDotsJpeg | img2pdf.py:163-165 | a name made of only dots before its ".jpg" or ".jpeg" suffix, in any case (".jpg", "..JPEG"), passes the filter, and its document name is the whole name followed by ".pdf", because `splitext` finds no extension |
| Pipeline.JpgAndJpegShareDocument | img2pdf.py:163-166 | for a stem with something other than dots, "stem.jpg" and "stem.jpeg" both pass the filter and are both given the document name "stem.pdf" |
| Pipeline.DocumentPathEndsWithName | img2pdf.py:164-166 | the document path recorded for a listed name ends with that name's document name, and its last '/' comes right before it, whatever the output folder |
| Pipeline.BatchOutcomeOfPipeline | img2pdf.py:168-179 | with the real pipeline, an entry fails exactly when the image is missing or saving raises; a missing image records the not-found message; an image that cannot be opened or preprocessed is recorded as converted with "" as its text |

## Left out

- The PIL preprocessing (lines 16-41) is left out: greyscale conversion, the LANCZOS 4x resize, the brightness, contrast and sharpness enhancers, and the unsharp mask. It is floating-point image arithmetic inside a library. The model receives its result, or its failure, as `Environment.enhance`.
- `pytesseract.image_to_string` is an abstract engine of type `Engine`, from an image and a configuration to the text read or `None` when the call raises. The `lang='eng'` argument is part of that engine.
- The image scaling and centring arithmetic (lines 104-113) is left out. It is floating-point layout inside the renderer, and only whether drawing succeeds (`Environment.placeImage`) affects the result.
- The `print` diagnostics are left out, including the provenance message at line 76, which never reaches the result.
- The Tesseract path assignment (line 10) and the `__main__` block (lines 184-194) are left out.
- `os.makedirs` (lines 157-158) is left out. Creating the output folder does not affect the result map; an error it raises ends the whole batch before any file is converted.
- `os.listdir` is replaced by a listing given as a sequence. Its order decides the order in which files are processed, and the Python dictionary of results keeps its entries in that order.
- `os.path.exists` and the document writer are left out; they are `Environment.fileExists` and `Environment.save`.
- Fonts, the x coordinate of text (50 points) and page width are left out. They affect no decision of the program.
- ReportLab's floating-point leading is replaced by exact integers in tenths of a point. Over the 49 lines of a page, the cursor never comes within 0.8 points of the margin, so every page-break decision is the same.
- Layout.Geometry.PerPage and the layout lemmas require a page with room for at least two lines between the margins. US Letter with a 50-point margin meets this.
- PyStr.Lower: lowercases ASCII letters only. No other character lowercases to '.', 'j', 'p', 'e' or 'g', so the ".jpg"/".jpeg" filter decides the same.
- PyStr.PathJoin: POSIX `os.path.join` only. The Windows flavour, with its drive letters and backslashes, is left out.
- Pipeline.BatchJpegToPdf: the result is a Dafny `map`, which has no order, so the insertion order of the entries (the listing order) is not modelled.
- Pipeline.BatchJpegToPdf: takes the per-file pipeline as an abstract `Converter`. It is instantiated with the real pipeline only in `BatchOutcomeOfPipeline`, where the batch calls it with `include_image` left at its default. The result value does not depend on that flag.
- Pipeline.JpegToPdfWithText: an exception raised while creating the canvas or drawing text is left out; only a missing image and a failure to save are modelled as errors.
- Pipeline.JpegToPdfWithText: leaving out the `print` calls leaves out the errors they can raise (for instance a `UnicodeEncodeError` on a console that cannot encode the text). The calls at lines 82 (inside the handler of `extract_text_from_jpeg`), 115 (inside the image handler) and 118-119 are not guarded, so such an error would fail the conversion and the batch would record a failure. The call at line 76 is inside the guarded attempt, after the best text is updated, so an error there changes nothing.
