/**
 * The MediaStore Downloads collection as the app sees it through a
 * ContentResolver: rows with a display name, a MIME type, a relative path, the
 * IS_PENDING flag and the bytes written so far. A row's uri is its index.
 */
module MediaStore {
  import opened Wrappers
  import opened Android
  import opened Document

  /** The MIME_TYPE both save functions store. */
  const PdfMimeType: string := "application/pdf"
  /** The RELATIVE_PATH both save functions store. */
  const DownloadPath: string := "Download/"

  /** The bytes of a row: none yet, a write cut short by an exception, or a whole document. */
  datatype Content = NoBytes | Partial | Pdf(pages: seq<Page>)

  /** One row of the Downloads collection. */
  datatype Entry = Entry(
    displayName: string,
    mimeType: string,
    relativePath: string,
    pending: bool,
    content: Content)

  /** What the app asks of the resolver, in the order it asks. */
  datatype Event =
    | OpenedInput(uri: Uri)           // openInputStream on an image
    | Inserted(id: nat, pending: bool) // insert of row `id` with this IS_PENDING
    | Wrote(id: nat)                  // bytes went to row `id` through openOutputStream
    | Updated(id: nat, pending: bool) // update setting IS_PENDING of row `id`

  /** The IS_PENDING flag of row `id` as the events leave it; None before the row is inserted. */
  function PendingAfter(events: seq<Event>, id: nat): Option<bool>
  {
    if events == [] then None
    else
      var last := events[|events| - 1];
      if (last.Inserted? || last.Updated?) && last.id == id then Some(last.pending)
      else PendingAfter(events[..|events| - 1], id)
  }

  /** Replaying the log gives the IS_PENDING flag of every row, and no flag for rows not yet inserted. */
  ghost predicate Replays(log: seq<Event>, entries: seq<Entry>)
  {
    forall id: nat :: PendingAfter(log, id) == (if id < |entries| then Some(entries[id].pending) else None)
  }

  /** Every write in the log went to a row that was pending at the time: no reader saw it half written. */
  ghost predicate WritesWhilePending(log: seq<Event>)
  {
    forall k :: 0 <= k < |log| && log[k].Wrote? ==> PendingAfter(log[..k], log[k].id) == Some(true)
  }

  /** The ContentValues both save functions insert: a PDF named `name` in Download/, still pending. */
  function PendingPdfRow(name: string): Entry
  {
    Entry(name, PdfMimeType, DownloadPath, true, NoBytes)
  }

  /** What a save or a whole conversion does: its result, the rows it leaves, the store events it causes. */
  datatype StoreOutcome<+T> = StoreOutcome(result: Result<T, Exception>, entries: seq<Entry>, events: seq<Event>)

  /**
   * The row after `write` sent `pages` to it: only the bytes change; without a
   * stream they stay as they were, a write cut short leaves part of them, and
   * a full write (even one whose close then threw) leaves the whole document.
   */
  function AfterWrite(e: Entry, pages: seq<Page>, write: Write): (r: Entry)
    ensures r == e.(content := r.content)
    ensures write.StreamNull? || write.OpenThrew? ==> r == e
    ensures write.Written? || write.CloseThrew? ==> r.content == Pdf(pages)
    ensures write.WriteThrew? ==> r.content == Partial
  {
    match write
    case StreamNull => e
    case OpenThrew(_) => e
    case Written => e.(content := Pdf(pages))
    case CloseThrew(_) => e.(content := Pdf(pages))
    case WriteThrew(_) => e.(content := Partial)
  }

  /** The events of a write: one, unless no stream was opened. */
  function WriteEvents(id: nat, write: Write): seq<Event>
  {
    if write.StreamNull? || write.OpenThrew? then [] else [Wrote(id)]
  }

  /** Appending an event that is not about row `id` leaves its flag as it was. */
  lemma PendingAfterOther(log: seq<Event>, e: Event, id: nat)
    requires !((e.Inserted? || e.Updated?) && e.id == id)
    ensures PendingAfter(log + [e], id) == PendingAfter(log, id)
  {
    assert (log + [e])[..|log|] == log;
  }

  /** Appending an insert or update of row `id` sets its flag. */
  lemma PendingAfterSet(log: seq<Event>, e: Event)
    requires e.Inserted? || e.Updated?
    ensures PendingAfter(log + [e], e.id) == Some(e.pending)
  {
  }

  /**
   * Extending a log keeps its writes-while-pending property when each new write
   * goes to a row that is pending at that point.
   */
  lemma {:induction false} WritesWhilePendingSnoc(log: seq<Event>, e: Event)
    requires WritesWhilePending(log)
    requires e.Wrote? ==> PendingAfter(log, e.id) == Some(true)
    ensures WritesWhilePending(log + [e])
  {
    var log' := log + [e];
    forall k | 0 <= k < |log'| && log'[k].Wrote?
      ensures PendingAfter(log'[..k], log'[k].id) == Some(true)
    {
      if k < |log| {
        assert log'[..k] == log[..k];
      } else {
        assert log'[..k] == log;
      }
    }
  }

  /** The app's view of the ContentResolver: the Downloads rows and a log of the calls made. */
  class ContentResolver {
    var entries: seq<Entry>
    ghost var log: seq<Event>

    /** The log replays to the rows' IS_PENDING flags. */
    ghost predicate Valid()
      reads this
    {
      Replays(log, entries)
    }

    /** A resolver over an empty Downloads collection with nothing asked of it yet. */
    constructor ()
      ensures Valid() && entries == [] && log == []
    {
      entries := [];
      log := [];
    }

    /** openInputStream(uri) on an image; what the stream yields is given by the Platform oracles. */
    method OpenInputStream(uri: Uri)
      modifies this`log
      ensures log == old(log) + [OpenedInput(uri)]
      ensures Valid() <==> old(Valid())
      ensures WritesWhilePending(old(log)) ==> WritesWhilePending(log)
    {
      if WritesWhilePending(log) {
        WritesWhilePendingSnoc(log, OpenedInput(uri));
      }
      log := log + [OpenedInput(uri)];
      forall id: nat ensures PendingAfter(log, id) == PendingAfter(old(log), id) {
        PendingAfterOther(old(log), OpenedInput(uri), id);
      }
    }

    /** insert(collection, values): a new row, or null when the platform refuses. */
    method Insert(values: Entry, succeeds: bool) returns (id: Option<nat>)
      requires Valid()
      modifies this
      ensures Valid()
      ensures succeeds ==> id == Some(|old(entries)|) && entries == old(entries) + [values]
                           && log == old(log) + [Inserted(|old(entries)|, values.pending)]
      ensures !succeeds ==> id == None && entries == old(entries) && log == old(log)
    {
      if !succeeds {
        return None;
      }
      var row := |entries|;
      var e := Inserted(row, values.pending);
      forall i: nat | i != row ensures PendingAfter(log + [e], i) == PendingAfter(log, i) {
        PendingAfterOther(log, e, i);
      }
      PendingAfterSet(log, e);
      entries := entries + [values];
      log := log + [e];
      id := Some(row);
    }

    /** openOutputStream(uri)?.use { pdf.writeTo(it) }: the outcome is given by `write`. */
    method WriteDocument(id: nat, pages: seq<Page>, write: Write) returns (thrown: Option<Exception>)
      requires Valid() && id < |entries|
      modifies this
      ensures Valid()
      ensures entries == old(entries)[id := AfterWrite(old(entries)[id], pages, write)]
      ensures log == old(log) + WriteEvents(id, write)
      ensures thrown == if write.Throws() then Some(Exception(write.message)) else None
    {
      entries := entries[id := AfterWrite(entries[id], pages, write)];
      if WriteEvents(id, write) != [] {
        forall i: nat ensures PendingAfter(log + [Wrote(id)], i) == PendingAfter(log, i) {
          PendingAfterOther(log, Wrote(id), i);
        }
        log := log + [Wrote(id)];
      }
      thrown := if write.Throws() then Some(Exception(write.message)) else None;
    }

    /** update(uri, values, null, null) with values holding only IS_PENDING. */
    method Update(id: nat, pending: bool)
      requires Valid() && id < |entries|
      modifies this
      ensures Valid()
      ensures entries == old(entries)[id := old(entries)[id].(pending := pending)]
      ensures log == old(log) + [Updated(id, pending)]
    {
      var e := Updated(id, pending);
      forall i: nat | i != id ensures PendingAfter(log + [e], i) == PendingAfter(log, i) {
        PendingAfterOther(log, e, i);
      }
      PendingAfterSet(log, e);
      entries := entries[id := entries[id].(pending := pending)];
      log := log + [e];
    }
  }
}
