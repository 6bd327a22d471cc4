/** The upload branch of `main`: once a file has been uploaded it turns the
    upload into images, shows a preview, recognises each image, accumulates
    the text, and either shows the text (offering it for download when the
    button is pressed) or, if anything raised, shows the error below whatever
    preview was already on the page. */
module App {
  import opened Common
  import opened Ocr
  import opened Rasterizer
  import opened Export

  const PdfMime: string := "application/pdf"

  /** What `images[0]` raises on an empty list. */
  const IndexOutOfRange: Fault := Fault("list index out of range")

  const ErrorPrefix: string := "Error: "
  const Advice: string := "Please upload a valid image or PDF file."

  /** The uploaded file: its declared media type and its bytes. */
  datatype Upload = Upload(mimeType: string, content: Bytes)

  /** Every foreign collaborator of the branch: the engines, the PDF library,
      `Image.open` followed by `np.array`, and JSON string escaping. */
  datatype Platform = Platform(
    engines: Engines,
    pdf: PdfLibrary,
    openImage: Bytes -> Result<Image>,
    jsonEscape: string -> string)

  /** A successful run: the image shown as preview and the extracted text. */
  datatype Extracted = Extracted(preview: Image, text: string)

  /** What the page shows once the branch has run. A failure keeps the
      preview if `st.image` had already run when the exception was raised. */
  datatype Screen =
    | Idle
    | Shown(preview: Image, text: string, download: Option<Download>)
    | Failed(shownPreview: Option<Image>, error: string, advice: string)

  /** The PDF text: every fragment followed by a newline, in page order. */
  function Joined(fragments: seq<string>): string
  {
    if |fragments| == 0 then "" else fragments[0] + "\n" + Joined(fragments[1..])
  }

  /** `image_to_text` with the technique fixed, as the page loop applies it. */
  function Recognizer(technique: string, engines: Engines): Image -> Result<string>
  {
    image => ImageToText(image, technique, engines)
  }

  /** The text the page loop accumulates, or the first fault raised in it. */
  function PdfText(images: seq<Image>, technique: string, engines: Engines): Result<string>
  {
    match Traverse(images, Recognizer(technique, engines))
    case Err(e) => Err(e)
    case Ok(fragments) => Ok(Joined(fragments))
  }

  /** The result of the try block up to the text display. */
  function Extraction(upload: Upload, technique: string, platform: Platform): Result<Extracted>
  {
    if upload.mimeType == PdfMime then
      match PageImages(upload.content, platform.pdf)
      case Err(e) => Err(e)
      case Ok(images) =>
        if |images| == 0 then Err(IndexOutOfRange)
        else
          match PdfText(images, technique, platform.engines)
          case Err(e) => Err(e)
          case Ok(text) => Ok(Extracted(images[0], text))
    else
      match platform.openImage(upload.content)
      case Err(e) => Err(e)
      case Ok(image) =>
        match ImageToText(image, technique, platform.engines)
        case Err(e) => Err(e)
        case Ok(text) => Ok(Extracted(image, text))
  }

  /** The image `st.image` has put on the page before recognition starts:
      page 0 of a PDF that opened, rendered and has a page (line 79), or the
      decoded single image (line 88); none if the try block raised earlier. */
  function PreviewShown(upload: Upload, platform: Platform): Option<Image>
  {
    if upload.mimeType == PdfMime then
      match PageImages(upload.content, platform.pdf)
      case Err(_) => None
      case Ok(images) => if |images| == 0 then None else Some(images[0])
    else
      match platform.openImage(upload.content)
      case Err(_) => None
      case Ok(image) => Some(image)
  }

  /** What the page shows for an upload (or none), the two selections and
      whether the download button was pressed. */
  function ScreenOf(upload: Option<Upload>, technique: string, format: string,
                    downloadPressed: bool, platform: Platform): Screen
  {
    match upload
    case None => Idle
    case Some(u) =>
      match Extraction(u, technique, platform)
      case Err(e) => Failed(PreviewShown(u, platform), ErrorPrefix + e.message, Advice)
      case Ok(x) =>
        Shown(x.preview, x.text,
              if downloadPressed then DownloadText(x.text, format, platform.jsonEscape) else None)
  }

  /** The page loop: `extracted_text += image_to_text(img, technique) + "\n"`
      for every image in order; an exception ends the loop and the run. */
  method AccumulatePageText(images: seq<Image>, technique: string, engines: Engines)
    returns (r: Result<string>)
    ensures r == PdfText(images, technique, engines)
  {
    var extractedText := "";
    ghost var fragments: seq<string> := [];
    for i := 0 to |images|
      invariant Traverse(images[..i], Recognizer(technique, engines)) == Ok(fragments)
      invariant extractedText == Joined(fragments)
    {
      assert images[..i + 1][..i] == images[..i];
      var fragment := ImageToText(images[i], technique, engines);
      if fragment.Err? {
        TraversePrefixErr(images, i + 1, Recognizer(technique, engines));
        return Err(fragment.fault);
      }
      JoinedConcat(fragments, [fragment.value]);
      extractedText := extractedText + fragment.value + "\n";
      fragments := fragments + [fragment.value];
    }
    assert images[..|images|] == images;
    return Ok(extractedText);
  }

  /** The branch of `main` from the upload check to the error handler. */
  method HandleUpload(upload: Option<Upload>, technique: string, format: string,
                      downloadPressed: bool, platform: Platform) returns (s: Screen)
    ensures s == ScreenOf(upload, technique, format, downloadPressed, platform)
  {
    if upload.None? {
      return Idle;
    }
    var u := upload.value;
    var extracted: Result<Extracted>;
    var shown: Option<Image> := None;
    if u.mimeType == PdfMime {
      var images := ExtractImagesFromPdf(u.content, platform.pdf);
      if images.Err? {
        extracted := Err(images.fault);
      } else if |images.value| == 0 {
        extracted := Err(IndexOutOfRange);
      } else {
        var preview := images.value[0];
        shown := Some(preview);
        var text := AccumulatePageText(images.value, technique, platform.engines);
        extracted := if text.Err? then Err(text.fault) else Ok(Extracted(preview, text.value));
      }
    } else {
      var image := platform.openImage(u.content);
      if image.Err? {
        extracted := Err(image.fault);
      } else {
        shown := Some(image.value);
        var text := ImageToText(image.value, technique, platform.engines);
        extracted := if text.Err? then Err(text.fault) else Ok(Extracted(image.value, text.value));
      }
    }
    if extracted.Err? {
      return Failed(shown, ErrorPrefix + extracted.fault.message, Advice);
    }
    var download := if downloadPressed
                    then DownloadText(extracted.value.text, format, platform.jsonEscape)
                    else None;
    return Shown(extracted.value.preview, extracted.value.text, download);
  }

  /** Accumulating two runs of pages one after the other gives the two texts
      one after the other. */
  lemma {:induction false} JoinedConcat(a: seq<string>, b: seq<string>)
    ensures Joined(a + b) == Joined(a) + Joined(b)
    decreases |a|
  {
    if |a| > 0 {
      JoinedConcat(a[1..], b);
      assert (a + b)[1..] == a[1..] + b;
    } else {
      assert a + b == b;
    }
  }

  /** The text is as long as all fragments together plus one newline per page. */
  lemma {:induction false} JoinedLength(fragments: seq<string>)
    ensures |Joined(fragments)| == TotalLength(fragments) + |fragments|
    decreases |fragments|
  {
    if |fragments| > 0 {
      JoinedLength(fragments[1..]);
    }
  }

  /** Page order: the text of page i starts right after the texts and
      newlines of pages 0..i-1 and is followed by its own newline, so page
      i's text precedes page i+1's. */
  lemma {:induction false} JoinedAt(fragments: seq<string>, i: nat)
    requires i < |fragments|
    ensures Joined(fragments) == Joined(fragments[..i]) + fragments[i] + "\n" + Joined(fragments[i + 1..])
    ensures var start := TotalLength(fragments[..i]) + i;
            start + |fragments[i]| < |Joined(fragments)| &&
            Joined(fragments)[start..start + |fragments[i]|] == fragments[i] &&
            Joined(fragments)[start + |fragments[i]|] == '\n'
  {
    var before, after := fragments[..i], fragments[i + 1..];
    assert fragments == before + ([fragments[i]] + after);
    JoinedConcat(before, [fragments[i]] + after);
    assert ([fragments[i]] + after)[1..] == after;
    JoinedLength(before);
    var start := TotalLength(before) + i;
    var whole := Joined(fragments);
    assert whole == Joined(before) + (fragments[i] + "\n" + Joined(after));
    assert whole[start..start + |fragments[i]|] == fragments[i];
  }

  /** When no fragment contains a newline, splitting the text on newlines gives
      the fragments back in page order, followed by the empty piece after the
      last newline: exactly one newline-terminated line per page. */
  lemma {:induction false} JoinedSplit(fragments: seq<string>)
    requires forall i :: 0 <= i < |fragments| ==> '\n' !in fragments[i]
    ensures Split(Joined(fragments), '\n') == fragments + [""]
    decreases |fragments|
  {
    if |fragments| > 0 {
      JoinedSplit(fragments[1..]);
      SplitAfterPiece(fragments[0], '\n', Joined(fragments[1..]));
      assert [fragments[0]] + (fragments[1..] + [""]) == fragments + [""];
    }
  }

  /** The PDF branch succeeds exactly when the document opens, every page
      renders, there is at least one page and every page is recognised; then
      the preview is the first page and the text holds page i's recognised
      text plus a newline for every page i, in page order. */
  lemma PdfExtractionMeaning(upload: Upload, technique: string, platform: Platform)
    requires upload.mimeType == PdfMime
    ensures var x := Extraction(upload, technique, platform);
            var images := PageImages(upload.content, platform.pdf);
            x.Ok? <==>
              images.Ok? && |images.value| > 0 &&
              forall i :: 0 <= i < |images.value| ==>
                ImageToText(images.value[i], technique, platform.engines).Ok?
    ensures var x := Extraction(upload, technique, platform);
            var images := PageImages(upload.content, platform.pdf);
            x.Ok? ==>
              var fragments := Traverse(images.value, Recognizer(technique, platform.engines)).value;
              x.value.preview == images.value[0] &&
              |fragments| == |images.value| &&
              (forall i :: 0 <= i < |fragments| ==>
                 fragments[i] == ImageToText(images.value[i], technique, platform.engines).value) &&
              x.value.text == Joined(fragments) &&
              |x.value.text| == TotalLength(fragments) + |images.value|
  {
    var images := PageImages(upload.content, platform.pdf);
    if images.Ok? {
      var recognize := Recognizer(technique, platform.engines);
      TraverseOk(images.value, recognize);
      if Traverse(images.value, recognize).Ok? {
        JoinedLength(Traverse(images.value, recognize).value);
      }
    }
  }

  /** A PDF without pages fails at `images[0]`, before any engine runs: the
      outcome is the index error whatever the technique and the engines. */
  lemma ZeroPagePdfFails(upload: Upload, technique: string, platform: Platform)
    requires upload.mimeType == PdfMime
    requires PageImages(upload.content, platform.pdf) == Ok([])
    ensures Extraction(upload, technique, platform) == Err(IndexOutOfRange)
  {
  }

  /** A PDF of two pages recognised by Tesseract as "Hello" and "World" gives
      "Hello\nWorld\n", with the first page as preview. */
  lemma TwoPageExample(upload: Upload, platform: Platform, p1: Page, p2: Page, i1: Image, i2: Image)
    requires upload.mimeType == PdfMime
    requires platform.pdf.openDocument(upload.content) == Ok(PdfDocument([p1, p2]))
    requires platform.pdf.renderPage(p1) == Ok(i1) && platform.pdf.renderPage(p2) == Ok(i2)
    requires platform.engines.tesseract(i1) == Ok("Hello")
    requires platform.engines.tesseract(i2) == Ok("World")
    ensures Extraction(upload, PyTesseract, platform) == Ok(Extracted(i1, "Hello\nWorld\n"))
  {
    var render := platform.pdf.renderPage;
    assert [p1, p2][..1] == [p1] && [p1][..0] == [];
    assert Traverse([p1][..0], render) == Ok([]);
    assert [p1][0] == p1 && [] + [i1] == [i1] && [i1] + [i2] == [i1, i2];
    assert Traverse([p1], render) == Ok([i1]);
    assert Traverse([p1, p2], render) == Ok([i1, i2]);
    var recognize := Recognizer(PyTesseract, platform.engines);
    assert recognize(i1) == Ok("Hello") && recognize(i2) == Ok("World");
    assert [i1, i2][..1] == [i1] && [i1][..0] == [];
    assert Traverse([i1][..0], recognize) == Ok([]);
    assert [] + ["Hello"] == ["Hello"] && ["Hello"] + ["World"] == ["Hello", "World"];
    assert Traverse([i1], recognize) == Ok(["Hello"]);
    assert Traverse([i1, i2], recognize) == Ok(["Hello", "World"]);
    assert Joined(["Hello", "World"]) == "Hello\nWorld\n";
  }

  /** With a technique outside the two, no page raises in recognition and
      every page contributes the fallback text and a newline. */
  lemma UnknownTechniquePerPage(images: seq<Image>, technique: string, engines: Engines)
    requires !IsKnownTechnique(technique)
    ensures PdfText(images, technique, engines) ==
              Ok(Joined(seq(|images|, i requires 0 <= i < |images| => InvalidTechnique)))
  {
    var recognize := Recognizer(technique, engines);
    TraverseOk(images, recognize);
    var expected := seq(|images|, i requires 0 <= i < |images| => InvalidTechnique);
    assert Traverse(images, recognize).value == expected;
  }

  /** The single-image branch shows the decoded image and exactly the
      recognised text, with no newline added; it fails exactly when decoding
      or recognition raises. */
  lemma SingleImageVerbatim(upload: Upload, technique: string, platform: Platform)
    requires upload.mimeType != PdfMime
    ensures var x := Extraction(upload, technique, platform);
            var image := platform.openImage(upload.content);
            x.Ok? <==> image.Ok? && ImageToText(image.value, technique, platform.engines).Ok?
    ensures var x := Extraction(upload, technique, platform);
            var image := platform.openImage(upload.content);
            x.Ok? ==> x.value.preview == image.value &&
                      x.value.text == ImageToText(image.value, technique, platform.engines).value
  {
  }

  /** Error containment: any exception leaves the page with the error message
      and the advice below the preview already shown, and no text and no
      download. On success the page shows the extraction's preview and text,
      and a download is offered exactly when the button was pressed and the
      format is one of the two. */
  lemma ErrorContainment(u: Upload, technique: string, format: string,
                            downloadPressed: bool, platform: Platform)
    ensures var s := ScreenOf(Some(u), technique, format, downloadPressed, platform);
            var x := Extraction(u, technique, platform);
            (s.Failed? <==> x.Err?) &&
            (s.Shown? <==> x.Ok?) &&
            (x.Err? ==> s == Failed(PreviewShown(u, platform), ErrorPrefix + x.fault.message, Advice))
    ensures var s := ScreenOf(Some(u), technique, format, downloadPressed, platform);
            var x := Extraction(u, technique, platform);
            x.Ok? ==>
              s.preview == x.value.preview && s.text == x.value.text &&
              PreviewShown(u, platform) == Some(s.preview) &&
              (s.download.Some? <==> downloadPressed && (format == TextFormat || format == JsonFormat)) &&
              (s.download.Some? ==> s.download == DownloadText(s.text, format, platform.jsonEscape))
  {
  }

  /** A recognition that raises after the preview was drawn leaves that
      preview on the page: page 0 for a PDF, the decoded image otherwise. A
      failure before `st.image` (the PDF does not open or render, has no
      pages, or the image does not decode) leaves no preview. */
  lemma PreviewSurvivesRecognitionFailure(u: Upload, technique: string, format: string,
                                          downloadPressed: bool, platform: Platform)
    ensures var s := ScreenOf(Some(u), technique, format, downloadPressed, platform);
            var images := PageImages(u.content, platform.pdf);
            u.mimeType == PdfMime && images.Ok? && |images.value| > 0 &&
            PdfText(images.value, technique, platform.engines).Err? ==>
              s == Failed(Some(images.value[0]),
                          ErrorPrefix + PdfText(images.value, technique, platform.engines).fault.message,
                          Advice)
    ensures var s := ScreenOf(Some(u), technique, format, downloadPressed, platform);
            var images := PageImages(u.content, platform.pdf);
            u.mimeType == PdfMime && (images.Err? || |images.value| == 0) ==>
              s.Failed? && s.shownPreview == None
    ensures var s := ScreenOf(Some(u), technique, format, downloadPressed, platform);
            var image := platform.openImage(u.content);
            u.mimeType != PdfMime && image.Ok? &&
            ImageToText(image.value, technique, platform.engines).Err? ==>
              s == Failed(Some(image.value),
                          ErrorPrefix + ImageToText(image.value, technique, platform.engines).fault.message,
                          Advice)
    ensures var s := ScreenOf(Some(u), technique, format, downloadPressed, platform);
            u.mimeType != PdfMime && platform.openImage(u.content).Err? ==>
              s.Failed? && s.shownPreview == None
  {
  }
}
