/**
 * The page loop both generatePdf functions run (`forEachIndexed`): decode each
 * image in order and append a page sized to its bitmap, numbered index + 1,
 * stopping at the first image that does not decode.
 */
module Pages {
  import opened Wrappers
  import opened Android
  import opened Document
  import opened MediaStore
  import opened Decoder

  /** Pages drawn from the first n decoded images, when exactly n decode in a row, are those of the decoded run. */
  lemma PagesOfRun(p: Platform, images: seq<Uri>, pages: seq<Page>, n: nat)
    requires n <= |images| && |pages| == n
    requires forall j :: 0 <= j < n ==>
      SafeDecode(p, images[j]).Some? && pages[j] == PageFor(SafeDecode(p, images[j]).value, j + 1)
    requires n < |images| ==> SafeDecode(p, images[n]).None?
    ensures pages == Paginate(DecodedRun(p, images), 1)
    ensures |DecodedRun(p, images)| == n
    ensures Attempted(p, images) == if n < |images| then n + 1 else n
  {
    DecodedRunEndsAt(p, images, n);
  }

  /**
   * One turn of the loop: decode image `index` and, if it decoded, append its
   * page numbered index + 1. Reports whether it decoded.
   */
  method AddNextPage(p: Platform, resolver: ContentResolver, images: seq<Uri>, index: nat, pdf: PdfDocument)
    returns (decoded: bool)
    requires index < |images| && !pdf.closed && resolver.Valid()
    modifies resolver`log, pdf
    ensures decoded == SafeDecode(p, images[index]).Some?
    ensures pdf.pages == if decoded then old(pdf.pages) + [PageFor(SafeDecode(p, images[index]).value, index + 1)]
                         else old(pdf.pages)
    ensures !pdf.closed
    ensures resolver.log == old(resolver.log) + InputOpens(p, images[index])
    ensures resolver.Valid()
    ensures WritesWhilePending(old(resolver.log)) ==> WritesWhilePending(resolver.log)
  {
    var bitmap := DecodeBitmapSafely(p, resolver, images[index]);
    decoded := bitmap.Some?;
    if decoded {
      pdf.AddPage(bitmap.value, index + 1);
    }
  }

  /**
   * Appends the pages of `images` to the open document `pdf`. Returns the
   * index of the first image that did not decode (None if all did); images
   * after it are never opened.
   */
  method ComposePages(p: Platform, resolver: ContentResolver, images: seq<Uri>, pdf: PdfDocument)
    returns (failedAt: Option<nat>)
    requires !pdf.closed && pdf.pages == [] && resolver.Valid()
    modifies resolver`log, pdf
    ensures failedAt == if |DecodedRun(p, images)| < |images| then Some(|DecodedRun(p, images)|) else None
    ensures pdf.pages == Paginate(DecodedRun(p, images), 1) && !pdf.closed
    ensures resolver.log == old(resolver.log) + InputOpensAll(p, images[..Attempted(p, images)])
    ensures resolver.Valid()
    ensures WritesWhilePending(old(resolver.log)) ==> WritesWhilePending(resolver.log)
  {
    var index := 0;
    while index < |images|
      invariant index <= |images|
      invariant !pdf.closed
      invariant |pdf.pages| == index
      invariant forall j :: 0 <= j < index ==>
        SafeDecode(p, images[j]).Some? && pdf.pages[j] == PageFor(SafeDecode(p, images[j]).value, j + 1)
      invariant resolver.log == old(resolver.log) + InputOpensAll(p, images[..index])
      invariant resolver.Valid()
      invariant WritesWhilePending(old(resolver.log)) ==> WritesWhilePending(resolver.log)
    {
      var decoded := AddNextPage(p, resolver, images, index, pdf);
      InputOpensAllStep(p, images, index);
      ghost var opens := old(resolver.log) + InputOpensAll(p, images[..index + 1]);
      assert resolver.log == opens;
      if !decoded {
        PagesOfRun(p, images, pdf.pages, index);
        assert images[..Attempted(p, images)] == images[..index + 1];
        return Some(index);
      }
      index := index + 1;
    }
    PagesOfRun(p, images, pdf.pages, index);
    assert images[..Attempted(p, images)] == images[..index];
    failedAt := None;
  }
}
