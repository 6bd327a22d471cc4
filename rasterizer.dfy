/** `extract_images_from_pdf`: a PDF becomes one image per page, in page order. Parsing
    and rendering are foreign and enter the model as functions. */
module Rasterizer {
  import opened Common

  /** A page of an opened document; its content is the library's business. */
  datatype Page = Page(content: Bytes)

  /** An opened PDF: `len(pdf_document)` is the number of pages and
      `pdf_document[i]` the page at index i. */
  datatype PdfDocument = PdfDocument(pages: seq<Page>)

  /** `fitz.open(stream=..., filetype="pdf")`, and `page.get_pixmap()` followed by
      `Image.frombytes("RGB", ...)`. Either may raise. */
  datatype PdfLibrary = PdfLibrary(
    openDocument: Bytes -> Result<PdfDocument>,
    renderPage: Page -> Result<Image>)

  /** What `extract_images_from_pdf` returns or raises. */
  function PageImages(file: Bytes, library: PdfLibrary): Result<seq<Image>>
  {
    match library.openDocument(file)
    case Err(e) => Err(e)
    case Ok(document) => Traverse(document.pages, library.renderPage)
  }

  /** `extract_images_from_pdf`: open the document, then render its pages one by
      one, appending each bitmap to the list. */
  method ExtractImagesFromPdf(file: Bytes, library: PdfLibrary) returns (r: Result<seq<Image>>)
    ensures r == PageImages(file, library)
  {
    var document := library.openDocument(file);
    if document.Err? {
      return Err(document.fault);
    }
    var pages := document.value.pages;
    var images: seq<Image> := [];
    for pageNumber := 0 to |pages|
      invariant Traverse(pages[..pageNumber], library.renderPage) == Ok(images)
    {
      assert pages[..pageNumber + 1][..pageNumber] == pages[..pageNumber];
      var rendered := library.renderPage(pages[pageNumber]);
      if rendered.Err? {
        TraversePrefixErr(pages, pageNumber + 1, library.renderPage);
        return Err(rendered.fault);
      }
      images := images + [rendered.value];
    }
    assert pages[..|pages|] == pages;
    return Ok(images);
  }

  /** The list holds one image per page, page i's rendering at index i, and is
      produced exactly when the document opens and every page renders;
      otherwise the fault is that of the failed open or of the first page
      that failed to render. */
  lemma PageImagesMeaning(file: Bytes, library: PdfLibrary)
    ensures var document := library.openDocument(file);
            PageImages(file, library).Ok? <==>
              document.Ok? &&
              forall i :: 0 <= i < |document.value.pages| ==>
                library.renderPage(document.value.pages[i]).Ok?
    ensures var document := library.openDocument(file);
            var images := PageImages(file, library);
            images.Ok? ==>
              |images.value| == |document.value.pages| &&
              forall i :: 0 <= i < |images.value| ==>
                images.value[i] == library.renderPage(document.value.pages[i]).value
    ensures var document := library.openDocument(file);
            var images := PageImages(file, library);
            images.Err? ==>
              (document.Err? && images.fault == document.fault) ||
              (document.Ok? &&
               exists k :: 0 <= k < |document.value.pages| &&
                 library.renderPage(document.value.pages[k]).Err? &&
                 images.fault == library.renderPage(document.value.pages[k]).fault &&
                 forall j :: 0 <= j < k ==> library.renderPage(document.value.pages[j]).Ok?)
  {
    var document := library.openDocument(file);
    if document.Ok? {
      TraverseOk(document.value.pages, library.renderPage);
      if PageImages(file, library).Err? {
        TraverseFirstFault(document.value.pages, library.renderPage);
      }
    }
  }
}
