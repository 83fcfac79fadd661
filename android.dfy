/**
 * Stand-ins for the Android calls the conversion pipeline makes and whose code
 * is not part of this model (BitmapFactory, PdfDocument.writeTo, MediaStore,
 * ContentResolver, the clock, the app's external-files directory). Each is an
 * oracle: a value that says what the platform does for one run.
 */
module Android {
  import opened Wrappers

  /** A content uri as the image picker hands it over; only its text is used. */
  type Uri = string

  /** A bitmap side in pixels: Android has no bitmap with an empty side. */
  type Pixels = n: int | n > 0 witness 1

  /** The size of a decoded bitmap. */
  datatype Dims = Dims(width: Pixels, height: Pixels)

  /** What the bounds-only probe (inJustDecodeBounds = true) leaves behind. */
  datatype Probe =
    | ProbeThrew
      // openInputStream or BitmapFactory.decodeStream threw
    | ProbeNoStream
      // openInputStream returned null: outWidth and outHeight keep their initial 0
    | Probed(outWidth: int, outHeight: int)
      // the fields as BitmapFactory set them (-1 when it could not read the header)

  /** What the second, sampled decode yields. */
  datatype Decode =
    | DecodeThrew
    | DecodeNull   // no input stream, or BitmapFactory returned null
    | Bitmap(size: Dims)

  /** What `resolver.openOutputStream(uri)?.use { pdf.writeTo(it) }` does. */
  datatype Write =
    | StreamNull                          // openOutputStream returned null: nothing is written
    | Written                             // the whole document was written and the stream closed
    | OpenThrew(message: Option<string>)  // openOutputStream threw: no stream, nothing written
    | WriteThrew(message: Option<string>) // writeTo threw part way: some bytes were written
    | CloseThrew(message: Option<string>) // the whole document was written, then closing the stream threw
  {
    /** The block ends with an exception, which skips everything after it in the save. */
    predicate Throws() {
      OpenThrew? || WriteThrew? || CloseThrew?
    }
  }

  /** A thrown exception, of which only its (nullable) message is observed. */
  datatype Exception = Exception(message: Option<string>)

  /** java.io.File(parent, child); a null parent leaves just the child name. */
  datatype File = File(parent: Option<string>, name: string)

  /** The platform's behaviour during one conversion. */
  datatype Platform = Platform(
    probe: Uri -> Probe,             // the bounds-only decode of an image
    decode: (Uri, int) -> Decode,    // the decode of an image at an inSampleSize
    now: nat,                        // System.currentTimeMillis()
    insertSucceeds: bool,            // resolver.insert returns a uri (true) or null (false)
    write: Write,                    // the output stream and PdfDocument.writeTo
    externalFilesDir: Option<string>) // context.getExternalFilesDir(null): null without shared storage
}
