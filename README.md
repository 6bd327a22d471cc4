# OCR Master: model of the extraction pipeline

This project models the text-extraction core of the OCR Master tool, a
Streamlit page (`sat_pdf_extract.py`). A user uploads an image or a PDF,
picks an OCR technique ("PyTesseract" or "EasyOCR") and a download format
("Text File" or "JSON"). The page does five things:

- it turns the upload into images, one per PDF page or the single image;
- it shows a preview: page 0 of a PDF, or the single image;
- it recognises each image with the chosen engine;
- it accumulates the text, with a newline after every PDF page;
- it shows the text and offers it for download in the chosen format.

An exception anywhere in this work stops it. The page then shows an error
message and advice, with no text and no download. A preview drawn before the
exception stays on the page above the message.

The foreign collaborators are parameters of the model. Each is a function
that returns a `Result`, so an exception is modelled as an `Err`:

- `Ocr.Engines`: `pytesseract.image_to_string` and `easyocr.Reader(["en"]).readtext`;
- `Rasterizer.PdfLibrary`: `fitz.open` and the rendering of one page (`get_pixmap` plus `Image.frombytes`);
- `App.Platform.openImage`: `Image.open` plus `np.array`;
- `App.Platform.jsonEscape`: JSON string escaping.

Modules:

- `Common`: images, faults, `Result`, and `Traverse`. `Traverse` is the
  "apply in order, stop at the first exception" semantics of a Python loop.
  The module also holds `Split`, a model of `str.split(sep)`, which is the
  inverse the joins are stated against.
- `Ocr`: `image_to_text` and `extract_text_with_easyocr`.
- `Rasterizer`: `extract_images_from_pdf`, as a method with a `for` loop.
- `Export`: `download_text`.
- `App`: the upload branch of `main`. The page loop is a method with a `for`
  loop. `HandleUpload` models the whole branch.

Three behaviours of the code are kept as written:

- An unknown technique gives the text "Invalid OCR technique selected.",
  not an error.
- Every media type other than `application/pdf` goes down the image branch.
  There is no unsupported-media-type error.
- A PDF with zero pages fails at `images[0]` with an index error. It does
  not give an empty text.

## Model

| member | source | states |
|---|---|---|
| `Ocr.ImageToTextDispatch` | sat_pdf_extract.py:20-26 | "PyTesseract" returns exactly Tesseract's result and depends on nothing else. "EasyOCR" returns exactly the EasyOCR result and depends only on the detections. Any other name returns `Ok("Invalid OCR technique selected.")` whatever the engines do, so no engine is consulted. |
| `Ocr.EasyOcrTextShape` | sat_pdf_extract.py:14-18 | The EasyOCR path fails exactly when `readtext` raises, with the same fault. Otherwise it returns the detections' text fields in detection order, joined by single spaces. No detection gives "". One detection gives its text unchanged. The length is the sum of the texts' lengths plus one per gap. When no text contains a space, splitting on spaces gives the texts back. |
| `Ocr.EasyOcrTextPositions` | sat_pdf_extract.py:16-18 | Whatever the texts contain, detection i's text appears whole in the result. It starts at offset (total length of texts 0..i-1) + i and is followed by a space unless it is the last detection. So the texts appear in detection order and each one is complete. |
| `Ocr.SpaceJoinLength` | sat_pdf_extract.py:17 | `" ".join`: no parts give "" and one part gives that part. For n > 0 parts the length is the total length of the parts plus n - 1. |
| `Ocr.SpaceJoinConcat` | sat_pdf_extract.py:17 | Joining two non-empty runs of parts gives the two joins with one space between them. |
| `Ocr.SpaceJoinAt` | sat_pdf_extract.py:17 | In `" ".join(parts)`, part i sits at offset (total length of parts 0..i-1) + i, whole, and is followed by a space unless it is the last part. |
| `Ocr.SpaceJoinSplit` | sat_pdf_extract.py:17 | Round trip: splitting the join on " " gives the parts back in order, provided no part contains a space. |
| `Rasterizer.ExtractImagesFromPdf` | sat_pdf_extract.py:46-54 | The loop over `range(len(pdf_document))` returns exactly `PageImages`: the document is opened, then pages are rendered in index order and appended, and the first exception is propagated. |
| `Rasterizer.PageImagesMeaning` | sat_pdf_extract.py:46-54 | The list exists exactly when the document opens and every page renders. It then has one image per page, with page i's rendering at index i. Otherwise the fault is the open's fault or the fault of the first page that failed to render. |
| `Common.TraverseFirstFault` | sat_pdf_extract.py:81-83 | When a loop over the items raises, the fault reported is that of the first failing item, and every earlier item succeeded. |
| `App.AccumulatePageText` | sat_pdf_extract.py:78-83 | The loop `extracted_text += image_to_text(img, technique) + "\n"` returns exactly `PdfText`: the texts of all pages, each followed by "\n", in page order. It returns the first fault if a recognition raises. |
| `App.JoinedConcat` | sat_pdf_extract.py:81-83 | Accumulating two runs of pages in sequence gives the two texts concatenated. |
| `App.JoinedLength` | sat_pdf_extract.py:78-83 | The accumulated text's length is the sum of the fragment lengths plus the page count. |
| `App.JoinedAt` | sat_pdf_extract.py:81-83 | Page i's text sits at offset (total length of pages 0..i-1) + i and is followed by "\n". So page N's text precedes page N+1's. |
| `App.JoinedSplit` | sat_pdf_extract.py:81-83 | If no fragment contains a newline, splitting the text on "\n" gives the fragments in page order plus one final empty piece: exactly one newline-terminated line per page. |
| `App.PdfExtractionMeaning` | sat_pdf_extract.py:76-83 | The PDF branch succeeds exactly when the document opens, every page renders, there is at least one page, and every page is recognised. The preview is then page 0. The text is the concatenation of each page's `image_to_text` plus "\n", with length = fragment lengths + page count. |
| `App.ZeroPagePdfFails` | sat_pdf_extract.py:77-79 | A PDF with no pages fails with "list index out of range" at `images[0]`, whatever the technique and the engines do. |
| `App.TwoPageExample` | sat_pdf_extract.py:76-83 | A two-page PDF whose pages Tesseract reads as "Hello" and "World" gives "Hello\nWorld\n", with page 0 as preview. |
| `App.UnknownTechniquePerPage` | sat_pdf_extract.py:81-83 | With an unknown technique, the page loop never raises. Each page contributes "Invalid OCR technique selected." and a newline. |
| `App.SingleImageVerbatim` | sat_pdf_extract.py:85-91 | The image branch succeeds exactly when decoding and recognition both succeed. The preview is the decoded image and the text is exactly `image_to_text` of it, with no newline added. |
| `App.HandleUpload` | sat_pdf_extract.py:74-101 | The branch returns exactly `ScreenOf`. With no upload nothing happens. An upload leads either to the extracted text (with the download when the button is pressed) or to the error message with the advice. |
| `App.ErrorContainment` | sat_pdf_extract.py:93-101 | The page shows the error exactly when extraction raised. The message is "Error: " + the exception's text, plus the advice, below the preview already drawn, and there is no text and no download. On success the page shows the extraction's preview and text. A download is offered exactly when the button was pressed and the format is one of the two, and it is `download_text`'s result. |
| `App.PreviewSurvivesRecognitionFailure` | sat_pdf_extract.py:76-91 | When recognition raises, the failure screen keeps the preview already drawn: page 0 of the PDF (line 79) or the decoded image (line 88). When the PDF fails to open or render, has no pages, or the image fails to decode, the failure screen has no preview. |
| `Export.DownloadTextFormats` | sat_pdf_extract.py:28-44 | "Text File" offers the text verbatim under the button "Download Text File" as `extracted_text.txt`, `text/plain`. "JSON" offers the one-key envelope under the button "Download JSON File" as `extracted_text.json`, `application/json`. Any other format offers no download, and only those two formats offer one. |
| `Export.JsonEnvelopeRoundTrip` | sat_pdf_extract.py:41 | Round trip: reading the JSON payload back between its envelope and unescaping gives the text, for any escaping that the unescaping undoes. |
| `Export.JsonEnvelopeInjective` | sat_pdf_extract.py:41 | Distinct texts give distinct JSON payloads, for any escaping that its unescaping undoes. |
| `Export.JsonEnvelopeExample` | sat_pdf_extract.py:41 | With "abc" (which escaping leaves unchanged), the JSON payload is exactly `{"extracted_text": "abc"}`, matching `json.dumps`'s default separators. |

## Left out

- The Streamlit presentation: title, sidebar, uploader, spinner, subheader and the button widgets. The selections, the upload and the button state are inputs. The image and the text that `st.image` and `st.text` display are modelled as the `Screen` value. The image captions "First Page of PDF" (line 79) and "Uploaded Image" (line 88) are not modelled. Exceptions raised by the widget calls themselves are not modelled.
- A Streamlit rerun (the download button is pressed on a later run of the script) is not modelled. `HandleUpload` is one run, with the button state as a parameter.
- The OCR engines' internals. They are abstract functions and therefore deterministic, whereas real engines need not be bit-for-bit repeatable. `extract_text_with_pytesseract` (lines 10-12) is only the Tesseract call and is `Engines.tesseract`.
- The cost of creating `easyocr.Reader(["en"])` on every call (line 15). It is latency only. Its possible exception is part of `Engines.readText`.
- The hard-coded Tesseract executable path (line 8). It is environment configuration.
- PyMuPDF parsing and pixmap rendering, and the PIL and numpy conversions (lines 48-52, 83, 86-87). These are foreign calls on binary formats. The model keeps "one image per page, in page order" and their ability to raise. `np.array(img)` is the identity on the abstract image.
- The character-level escaping of `json.dumps` (section 7 of RFC 8259, with Python's ASCII escaping). It is the parameter `jsonEscape`.
- Export.JsonEnvelopeRoundTrip: stated for any escaping and unescaping pair where unescaping undoes escaping, not for `json.loads` itself, because the escaping is abstract.
- The label and mime wiring of `st.download_button` is modelled as a `Download` value. Actually sending the file to the browser is I/O.
