/**
 * The PdfGenerator object: the same page loop, but a failed decode throws with
 * the image's uri in the message, a refused insert throws, and the saved row
 * is never taken out of the pending state.
 */
module Generator {
  import opened Wrappers
  import opened Android
  import opened Document
  import opened MediaStore
  import opened Decoder
  import opened Naming
  import opened Pages

  /** The start of the message thrown when an image does not decode; the uri follows. */
  const DecodeFailedPrefix: string := "이미지 디코딩 실패: "
  /** The message thrown when the Downloads row cannot be created. */
  const InsertFailedMessage: string := "다운로드 폴더에 파일 생성 실패"

  /**
   * saveToDownloads: insert a pending row and write the document to it; no
   * update follows. A refused insert throws; a null output stream skips the
   * write and still returns the file.
   */
  function GenSave(entries: seq<Entry>, p: Platform, pages: seq<Page>): StoreOutcome<File>
  {
    var name := FileName(p.now);
    var id := |entries|;
    if !p.insertSucceeds then
      StoreOutcome(Failure(Exception(Some(InsertFailedMessage))), entries, [])
    else
      var written := AfterWrite(PendingPdfRow(name), pages, p.write);
      var result := if p.write.Throws() then Failure(Exception(p.write.message))
                    else Success(File(p.externalFilesDir, name));
      StoreOutcome(result, entries + [written], [Inserted(id, true)] + WriteEvents(id, p.write))
  }

  /** generatePdf(context, imageUris): the pages of all images, then saveToDownloads. */
  function GenGenerate(p: Platform, entries: seq<Entry>, uris: seq<Uri>): StoreOutcome<File>
  {
    var decoded := DecodedRun(p, uris);
    if |decoded| < |uris| then
      StoreOutcome(Failure(Exception(Some(DecodeFailedPrefix + uris[|decoded|]))), entries, [])
    else
      GenSave(entries, p, Paginate(decoded, 1))
  }

  /** Every write of saveToDownloads goes to its row while that row is pending. */
  lemma {:induction false} GenSaveWritesWhilePending(log: seq<Event>, entries: seq<Entry>, p: Platform, pages: seq<Page>)
    requires WritesWhilePending(log)
    ensures WritesWhilePending(log + GenSave(entries, p, pages).events)
  {
    var id := |entries|;
    var events := GenSave(entries, p, pages).events;
    if p.insertSucceeds {
      var inserted := log + [Inserted(id, true)];
      WritesWhilePendingSnoc(log, Inserted(id, true));
      PendingAfterSet(log, Inserted(id, true));
      if WriteEvents(id, p.write) == [] {
        assert log + events == inserted;
      } else {
        WritesWhilePendingSnoc(inserted, Wrote(id));
        assert log + events == inserted + [Wrote(id)];
      }
    } else {
      assert log + events == log;
    }
  }

  /** The row saveToDownloads adds is pending whatever the write did, and nothing else changes. */
  lemma GenSaveLeavesRowPending(entries: seq<Entry>, p: Platform, pages: seq<Page>)
    requires p.insertSucceeds
    ensures var s := GenSave(entries, p, pages);
      && s.entries == entries + [AfterWrite(PendingPdfRow(FileName(p.now)), pages, p.write)]
      && s.entries[|entries|].pending
      && forall k :: 0 <= k < |s.events| ==> !s.events[k].Updated?
  {
  }

  /** A refused insert throws "다운로드 폴더에 파일 생성 실패" before anything is written. */
  lemma GenSaveRefusedInsertThrows(entries: seq<Entry>, p: Platform, pages: seq<Page>)
    requires !p.insertSucceeds
    ensures GenSave(entries, p, pages) == StoreOutcome(Failure(Exception(Some(InsertFailedMessage))), entries, [])
  {
  }

  /** A null output stream is silent: nothing is written and the file is still returned. */
  lemma GenSaveSkipsWriteWithoutStream(entries: seq<Entry>, p: Platform, pages: seq<Page>)
    requires p.insertSucceeds && p.write.StreamNull?
    ensures var s := GenSave(entries, p, pages);
      && s.result == Success(File(p.externalFilesDir, FileName(p.now)))
      && s.entries[|entries|] == PendingPdfRow(FileName(p.now))
      && s.events == [Inserted(|entries|, true)]
  {
  }

  /**
   * At the first image k that does not decode, generatePdf throws a message
   * that names that image's uri; nothing is stored and no later image is decoded.
   */
  lemma GenGenerateStopsAtFirstFailure(p: Platform, entries: seq<Entry>, uris: seq<Uri>, k: nat)
    requires k < |uris|
    requires forall j :: 0 <= j < k ==> SafeDecode(p, uris[j]).Some?
    requires SafeDecode(p, uris[k]).None?
    ensures GenGenerate(p, entries, uris) == StoreOutcome(Failure(Exception(Some(DecodeFailedPrefix + uris[k]))), entries, [])
    ensures Attempted(p, uris) == k + 1
  {
    DecodedRunEndsAt(p, uris, k);
  }

  /**
   * When every image decodes and the write completes, the stored document has
   * one page per uri in order, numbered from 1 and sized to the decoded bitmap.
   */
  lemma GenGenerateOnePagePerImage(p: Platform, entries: seq<Entry>, uris: seq<Uri>)
    requires forall k :: 0 <= k < |uris| ==> SafeDecode(p, uris[k]).Some?
    requires p.insertSucceeds && p.write.Written?
    ensures var run := GenGenerate(p, entries, uris);
      && run.result == Success(File(p.externalFilesDir, FileName(p.now)))
      && |run.entries| == |entries| + 1
      && run.entries[|entries|].content.Pdf?
      && var pages := run.entries[|entries|].content.pages;
         && |pages| == |uris|
         && forall k :: 0 <= k < |uris| ==>
              pages[k] == Page(SafeDecode(p, uris[k]).value.width, SafeDecode(p, uris[k]).value.height, k + 1)
  {
    DecodedRunEndsAt(p, uris, |uris|);
  }

  /**
   * generatePdf(context, imageUris): returns the saved file or throws. The
   * document is closed only after a save that did not throw.
   */
  method GeneratePdf(p: Platform, resolver: ContentResolver, imageUris: seq<Uri>)
    returns (r: Result<File, Exception>, ghost doc: PdfDocument)
    requires resolver.Valid()
    modifies resolver
    ensures resolver.Valid() && fresh(doc)
    ensures var run := GenGenerate(p, old(resolver.entries), imageUris);
      && r == run.result
      && resolver.entries == run.entries
      && resolver.log == old(resolver.log) + InputOpensAll(p, imageUris[..Attempted(p, imageUris)]) + run.events
    ensures WritesWhilePending(old(resolver.log)) ==> WritesWhilePending(resolver.log)
    ensures doc.pages == Paginate(DecodedRun(p, imageUris), 1)
    ensures doc.closed <==> r.Success?
  {
    var pdf := new PdfDocument();
    doc := pdf;
    var failedAt := ComposePages(p, resolver, imageUris, pdf);
    if failedAt.Some? {
      r := Failure(Exception(Some(DecodeFailedPrefix + imageUris[failedAt.value])));
      return;
    }
    r := SaveToDownloads(p, pdf, resolver);
    if r.Success? {
      pdf.Close();
    }
  }

  /** saveToDownloads: insert pending, write, return the file under the app's directory. */
  method SaveToDownloads(p: Platform, pdfDocument: PdfDocument, resolver: ContentResolver)
    returns (r: Result<File, Exception>)
    requires resolver.Valid()
    modifies resolver
    ensures resolver.Valid()
    ensures var s := GenSave(old(resolver.entries), p, pdfDocument.pages);
      r == s.result && resolver.entries == s.entries && resolver.log == old(resolver.log) + s.events
    ensures WritesWhilePending(old(resolver.log)) ==> WritesWhilePending(resolver.log)
  {
    if WritesWhilePending(resolver.log) {
      GenSaveWritesWhilePending(resolver.log, resolver.entries, p, pdfDocument.pages);
    }
    var fileName := FileName(p.now);
    var uri := resolver.Insert(PendingPdfRow(fileName), p.insertSucceeds);
    if uri.None? {
      return Failure(Exception(Some(InsertFailedMessage)));
    }
    var thrown := resolver.WriteDocument(uri.value, pdfDocument.pages, p.write);
    if thrown.Some? {
      return Failure(thrown.value);
    }
    r := Success(File(p.externalFilesDir, fileName));
  }
}
