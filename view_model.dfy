/**
 * PdfViewModel: the selected images, the last saved PDF, and the conversion
 * that turns the selection into pages and saves them to Downloads, clearing
 * the pending flag afterwards.
 */
module ViewModel {
  import opened Wrappers
  import opened Android
  import opened Document
  import opened MediaStore
  import opened Decoder
  import opened Naming
  import opened Pages

  /** The failure message when an image cannot be loaded. */
  const LoadFailedMessage: string := "이미지 불러오기 실패"
  /** The message convertPdf reports for an exception without one. */
  const FallbackMessage: string := "오류"

  /**
   * savePdfToDownloads: insert a pending row, write the document, then clear
   * the flag and return the same name under the external-files directory. A
   * refused insert returns null; a throwing write leaves the row pending.
   */
  function VmSave(entries: seq<Entry>, p: Platform, pages: seq<Page>): StoreOutcome<Option<File>>
  {
    var name := FileName(p.now);
    var id := |entries|;
    if !p.insertSucceeds then
      StoreOutcome(Success(None), entries, [])
    else
      var written := AfterWrite(PendingPdfRow(name), pages, p.write);
      if p.write.Throws() then
        StoreOutcome(Failure(Exception(p.write.message)), entries + [written], [Inserted(id, true)] + WriteEvents(id, p.write))
      else
        StoreOutcome(Success(Some(File(p.externalFilesDir, name))),
                     entries + [written.(pending := false)],
                     [Inserted(id, true)] + WriteEvents(id, p.write) + [Updated(id, false)])
  }

  /**
   * generatePdf: decode the selection in order, failing at the first image
   * that does not decode; otherwise save one page per image.
   */
  function VmGenerate(p: Platform, entries: seq<Entry>, images: seq<Uri>): StoreOutcome<Option<File>>
  {
    var decoded := DecodedRun(p, images);
    if |decoded| < |images| then
      StoreOutcome(Failure(Exception(Some(LoadFailedMessage))), entries, [])
    else
      VmSave(entries, p, Paginate(decoded, 1))
  }

  /** The callback convertPdf invokes, exactly one of the two. */
  datatype Callback = OnSuccess(file: Option<File>) | OnError(message: string)

  /** `result.onSuccess { onSuccess(it) }.onFailure { onError(it.message ?: "오류") }` */
  function Dispatch(result: Result<Option<File>, Exception>): (c: Callback)
    ensures c.OnSuccess? <==> result.Success?
    ensures c.OnSuccess? ==> result == Success(c.file)
    ensures c.OnError? && result.error.message.Some? ==> c.message == result.error.message.value
    ensures c.OnError? && result.error.message.None? ==> c.message == FallbackMessage
  {
    match result
    case Success(file) => OnSuccess(file)
    case Failure(e) => OnError(e.message.GetOr(FallbackMessage))
  }

  /** Every write of a save goes to its row while that row is pending. */
  lemma {:induction false} VmSaveWritesWhilePending(log: seq<Event>, entries: seq<Entry>, p: Platform, pages: seq<Page>)
    requires WritesWhilePending(log)
    ensures WritesWhilePending(log + VmSave(entries, p, pages).events)
  {
    var id := |entries|;
    var events := VmSave(entries, p, pages).events;
    if p.insertSucceeds {
      var inserted := log + [Inserted(id, true)];
      WritesWhilePendingSnoc(log, Inserted(id, true));
      PendingAfterSet(log, Inserted(id, true));
      var written := inserted + WriteEvents(id, p.write);
      if WriteEvents(id, p.write) != [] {
        WritesWhilePendingSnoc(inserted, Wrote(id));
      } else {
        assert written == inserted;
      }
      if p.write.Throws() {
        assert log + events == written;
      } else {
        WritesWhilePendingSnoc(written, Updated(id, false));
        assert log + events == written + [Updated(id, false)];
      }
    } else {
      assert log + events == log;
    }
  }

  /** savePdfToDownloads adds at most one row and leaves every other row as it was. */
  lemma VmSaveKeepsOtherRows(entries: seq<Entry>, p: Platform, pages: seq<Page>)
    ensures var s := VmSave(entries, p, pages);
      && |s.entries| == |entries| + (if p.insertSucceeds then 1 else 0)
      && s.entries[..|entries|] == entries
  {
  }

  /**
   * After an insert, the new row is taken out of the pending state exactly when
   * no exception ended the write block. A row left pending may hold nothing
   * (openOutputStream threw), part of the document (writeTo threw) or all of it
   * (closing the stream threw).
   */
  lemma VmSaveClearsPendingIff(entries: seq<Entry>, p: Platform, pages: seq<Page>)
    requires p.insertSucceeds
    ensures var row := VmSave(entries, p, pages).entries[|entries|];
      && row.displayName == FileName(p.now)
      && (!row.pending <==> !p.write.Throws())
      && (row.content == NoBytes <==> p.write.StreamNull? || p.write.OpenThrew?)
      && (row.content.Partial? <==> p.write.WriteThrew?)
      && (row.content == Pdf(pages) <==> p.write.Written? || p.write.CloseThrew?)
  {
  }

  /**
   * When openOutputStream returns null nothing is written, yet the row is
   * taken out of pending and the file is reported as saved: an empty download
   * becomes visible.
   */
  lemma VmSaveCommitsEmptyRowWithoutStream(entries: seq<Entry>, p: Platform, pages: seq<Page>)
    requires p.insertSucceeds && p.write.StreamNull?
    ensures var s := VmSave(entries, p, pages);
      && s.result == Success(Some(File(p.externalFilesDir, FileName(p.now))))
      && s.entries[|entries|] == PendingPdfRow(FileName(p.now)).(pending := false)
      && s.events == [Inserted(|entries|, true), Updated(|entries|, false)]
  {
  }

  /** A refused insert is not an error: savePdfToDownloads returns null and nothing is stored. */
  lemma VmSaveRefusedInsertReturnsNull(entries: seq<Entry>, p: Platform, pages: seq<Page>)
    requires !p.insertSucceeds
    ensures VmSave(entries, p, pages) == StoreOutcome(Success(None), entries, [])
  {
  }

  /**
   * When every image decodes and the save completes, the stored document has
   * one page per selected image, in selection order, numbered from 1 and sized
   * to the decoded bitmap; the result is the file of the same name.
   */
  lemma VmGenerateOnePagePerImage(p: Platform, entries: seq<Entry>, images: seq<Uri>)
    requires forall k :: 0 <= k < |images| ==> SafeDecode(p, images[k]).Some?
    requires p.insertSucceeds && p.write.Written?
    ensures var run := VmGenerate(p, entries, images);
      && run.result == Success(Some(File(p.externalFilesDir, FileName(p.now))))
      && |run.entries| == |entries| + 1
      && run.entries[|entries|].content.Pdf?
      && !run.entries[|entries|].pending
      && var pages := run.entries[|entries|].content.pages;
         && |pages| == |images|
         && forall k :: 0 <= k < |images| ==>
              pages[k] == Page(SafeDecode(p, images[k]).value.width, SafeDecode(p, images[k]).value.height, k + 1)
  {
    DecodedRunEndsAt(p, images, |images|);
  }

  /**
   * At the first image k that does not decode the conversion fails with
   * "이미지 불러오기 실패", stores nothing, and decodes no image after k.
   */
  lemma VmGenerateStopsAtFirstFailure(p: Platform, entries: seq<Entry>, images: seq<Uri>, k: nat)
    requires k < |images|
    requires forall j :: 0 <= j < k ==> SafeDecode(p, images[j]).Some?
    requires SafeDecode(p, images[k]).None?
    ensures VmGenerate(p, entries, images) == StoreOutcome(Failure(Exception(Some(LoadFailedMessage))), entries, [])
    ensures Attempted(p, images) == k + 1
  {
    DecodedRunEndsAt(p, images, k);
  }

  /**
   * convertPdf reports each outcome through exactly one callback: a load
   * failure by its message, a save exception by its message or, without one,
   * by "오류", a refused insert as success with null, a completed save by the file.
   */
  lemma ConvertCallbacks(p: Platform, entries: seq<Entry>, images: seq<Uri>)
    ensures |DecodedRun(p, images)| < |images| ==>
      Dispatch(VmGenerate(p, entries, images).result) == OnError(LoadFailedMessage)
    ensures |DecodedRun(p, images)| == |images| && p.insertSucceeds && p.write.Throws() && p.write.message.None? ==>
      Dispatch(VmGenerate(p, entries, images).result) == OnError(FallbackMessage)
    ensures |DecodedRun(p, images)| == |images| && p.insertSucceeds && p.write.Throws() && p.write.message.Some? ==>
      Dispatch(VmGenerate(p, entries, images).result) == OnError(p.write.message.value)
    ensures |DecodedRun(p, images)| == |images| && !p.insertSucceeds ==>
      Dispatch(VmGenerate(p, entries, images).result) == OnSuccess(None)
    ensures |DecodedRun(p, images)| == |images| && p.insertSucceeds && !p.write.Throws() ==>
      Dispatch(VmGenerate(p, entries, images).result) == OnSuccess(Some(File(p.externalFilesDir, FileName(p.now))))
  {
  }

  class PdfViewModel {
    var selectedImages: seq<Uri>
    var lastPdf: Option<File>

    /** A view model with nothing selected and no PDF yet. */
    constructor ()
      ensures selectedImages == [] && lastPdf == None
    {
      selectedImages := [];
      lastPdf := None;
    }

    /** updateImages: replaces the selection. */
    method UpdateImages(images: seq<Uri>)
      modifies this
      ensures selectedImages == images && lastPdf == old(lastPdf)
    {
      selectedImages := images;
    }

    /** convertPdf: runs generatePdf and invokes exactly one of onSuccess / onError. */
    method ConvertPdf(p: Platform, resolver: ContentResolver) returns (callback: Callback)
      requires resolver.Valid()
      modifies this, resolver
      ensures resolver.Valid()
      ensures var run := VmGenerate(p, old(resolver.entries), old(selectedImages));
        && callback == Dispatch(run.result)
        && resolver.entries == run.entries
        && resolver.log == old(resolver.log)
             + InputOpensAll(p, old(selectedImages)[..Attempted(p, old(selectedImages))]) + run.events
        && lastPdf == (if run.result.Success? then run.result.value else old(lastPdf))
      ensures WritesWhilePending(old(resolver.log)) ==> WritesWhilePending(resolver.log)
      ensures selectedImages == old(selectedImages)
    {
      var result, _ := GeneratePdf(p, resolver);
      callback := Dispatch(result);
    }

    /**
     * generatePdf: one page per selected image in order, numbered index + 1
     * and sized to the decoded bitmap; the first image that does not decode
     * ends the run with a failure before anything is saved. On success the
     * document is saved, lastPdf is set (to null if the insert was refused) and
     * the document closed. An exception from the save becomes the failure.
     */
    method GeneratePdf(p: Platform, resolver: ContentResolver) returns (r: Result<Option<File>, Exception>, ghost doc: PdfDocument)
      requires resolver.Valid()
      modifies this, resolver
      ensures resolver.Valid() && fresh(doc)
      ensures var run := VmGenerate(p, old(resolver.entries), old(selectedImages));
        && r == run.result
        && resolver.entries == run.entries
        && resolver.log == old(resolver.log)
             + InputOpensAll(p, old(selectedImages)[..Attempted(p, old(selectedImages))]) + run.events
      ensures WritesWhilePending(old(resolver.log)) ==> WritesWhilePending(resolver.log)
      ensures selectedImages == old(selectedImages)
      ensures lastPdf == if r.Success? then r.value else old(lastPdf)
      ensures doc.pages == Paginate(DecodedRun(p, selectedImages), 1)
      ensures doc.closed <==> r.Success?
    {
      var pdf := new PdfDocument();
      doc := pdf;
      var failedAt := ComposePages(p, resolver, selectedImages, pdf);
      if failedAt.Some? {
        r := Failure(Exception(Some(LoadFailedMessage)));
        return;
      }
      var saved := SavePdfToDownloads(p, pdf, resolver);
      if saved.Failure? {
        r := Failure(saved.error);
        return;
      }
      lastPdf := saved.value;
      pdf.Close();
      r := Success(saved.value);
    }

    /** savePdfToDownloads: insert pending, write, clear pending, return the file under the app's directory. */
    method SavePdfToDownloads(p: Platform, pdfDocument: PdfDocument, resolver: ContentResolver)
      returns (r: Result<Option<File>, Exception>)
      requires resolver.Valid()
      modifies resolver
      ensures resolver.Valid()
      ensures var s := VmSave(old(resolver.entries), p, pdfDocument.pages);
        r == s.result && resolver.entries == s.entries && resolver.log == old(resolver.log) + s.events
      ensures WritesWhilePending(old(resolver.log)) ==> WritesWhilePending(resolver.log)
    {
      if WritesWhilePending(resolver.log) {
        VmSaveWritesWhilePending(resolver.log, resolver.entries, p, pdfDocument.pages);
      }
      var fileName := FileName(p.now);
      var uri := resolver.Insert(PendingPdfRow(fileName), p.insertSucceeds);
      if uri.None? {
        return Success(None);
      }
      var thrown := resolver.WriteDocument(uri.value, pdfDocument.pages, p.write);
      if thrown.Some? {
        return Failure(thrown.value);
      }
      resolver.Update(uri.value, false);
      r := Success(Some(File(p.externalFilesDir, fileName)));
    }
  }
}
