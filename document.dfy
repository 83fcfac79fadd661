/** The PDF document under construction: android.graphics.pdf.PdfDocument seen as a list of pages. */
module Document {
  import opened Android

  /** PdfDocument.PageInfo: page size and public page number; the canvas content is not modelled. */
  datatype Page = Page(width: Pixels, height: Pixels, number: int)

  /** The page a bitmap of this size becomes: sized exactly to the bitmap, drawn at the origin. */
  function PageFor(bitmap: Dims, number: int): Page {
    Page(bitmap.width, bitmap.height, number)
  }

  /**
   * The pages a document gets from these bitmaps, appended in order and
   * numbered consecutively from `first`.
   */
  function Paginate(bitmaps: seq<Dims>, first: int): (pages: seq<Page>)
    ensures |pages| == |bitmaps|
    ensures forall k :: 0 <= k < |bitmaps| ==> pages[k] == PageFor(bitmaps[k], first + k)
  {
    if bitmaps == [] then [] else [PageFor(bitmaps[0], first)] + Paginate(bitmaps[1..], first + 1)
  }

  /** A PdfDocument: append-only while open, then closed. */
  class PdfDocument {
    var pages: seq<Page>
    var closed: bool

    /** `PdfDocument()`: an empty, open document. */
    constructor ()
      ensures pages == [] && !closed
    {
      pages := [];
      closed := false;
    }

    /** startPage(pageInfo), drawBitmap(bitmap, 0f, 0f, null), finishPage(page). */
    method AddPage(bitmap: Dims, number: int)
      requires !closed
      modifies this
      ensures pages == old(pages) + [PageFor(bitmap, number)]
      ensures !closed
    {
      pages := pages + [PageFor(bitmap, number)];
    }

    /** close(): the document can no longer be written to. */
    method Close()
      modifies this
      ensures closed && pages == old(pages)
    {
      closed := true;
    }
  }
}
