# Image-to-PDF conversion pipeline, modelled in Dafny

A model of the conversion core of the ImageToPDFConvertApp Android app. The app
turns the images a user picked into one PDF, one page per image, and saves the
PDF to the public Downloads collection through MediaStore. The pipeline exists
twice with small differences: in `PdfViewModel` (used by the UI) and in the
`PdfGenerator` object. Both are modelled, and lemmas state how they differ.

The Android calls whose code is not visible are oracles. They are collected in
`Android.Platform`:
- the bounds-only probe and the sampled decode of each image (BitmapFactory over
  `openInputStream`);
- the clock (`System.currentTimeMillis()`);
- whether `resolver.insert` returns a uri or null;
- what the `openOutputStream(uri)?.use { writeTo }` block does: no stream, a
  complete write, or an exception (with a nullable message) thrown by
  `openOutputStream` (nothing written), by `writeTo` (part written) or by the
  stream's close after a complete write;
- `getExternalFilesDir(null)`, which is null when shared storage is unavailable.

Modules, in dependency order:
- `Wrappers`: Option (Kotlin nullable) and Result (kotlin.Result, or "returns or throws").
- `SampleSize`: `calculateInSampleSize` with Kotlin's truncating `Int` division. The two files hold the same text; it is modelled once.
- `Android`: the oracle types, `Exception` (only its nullable message is observed) and `File(parent, name)`.
- `Document`: pages `(width, height, number)`, their closed form `Paginate`, and a `PdfDocument` class (pages appended in place, then closed).
- `MediaStore`: Downloads rows `(name, MIME type, relative path, IS_PENDING, bytes)`. A `ContentResolver` class holds the rows and a ghost log of the calls made (input streams opened, insert, write, update). Its invariant is that replaying the log gives every row's IS_PENDING flag. `WritesWhilePending` says every write went to a row that was pending at the time.
- `Decoder`: `decodeBitmapSafely` (the two files hold the same text) and the run of decoded bitmaps up to the first failure.
- `Naming`: the name `"pdf_" + millis + ".pdf"`, whose digits read back as the timestamp, so it is injective.
- `Pages`: the `forEachIndexed` page loop that both copies run.
- `ViewModel`: `PdfViewModel` (`selectedImages`, `lastPdf`, `updateImages`, `convertPdf`, `generatePdf`, `savePdfToDownloads`).
- `Generator`: `PdfGenerator` (`generatePdf`, `saveToDownloads`).
- `Comparison`: lemmas that set the two copies side by side.

Each state-changing method is proved against a specification function. The function gives its result, the new rows and the events appended to the log: `VmSave`, `VmGenerate`, `GenSave`, `GenGenerate`, `DecodedRun`, `Paginate`. The lemmas are stated about those functions.

Behaviour of the code that the model keeps:
- The downsample factor is not clamped to at least 1. An 800×3000 photo gets 0; BitmapFactory treats 0 as 1, so nothing breaks.
- Because the factor takes the minimum of the two ratios, a decoded image can stay over a bound. A 4000×3000 photo gets factor 1 (taking the larger ratio would give 3).
- The view model turns a refused insert into a success whose file is null, and sets `lastPdf` to null.
- An exception from the output stream (opening it, writing, or closing it) leaves a pending row behind. No cleanup is attempted. A throwing close leaves a complete PDF that stays pending.
- When no output stream opens, the view model still clears the pending flag of the empty row and reports success.
- The generator never clears the pending flag.
- The file both copies return is `pdf_<millis>.pdf` under the app's external-files directory, not the MediaStore row.
- When `getExternalFilesDir(null)` is null, the returned `File` has no parent and is the bare name.
- Neither copy rejects an empty selection. Only the UI's enabled-guard does, so the model lets an empty run save a zero-page document.

## Model

| member | source | states |
|---|---|---|
| SampleSize.TruncDiv | ImageToPDFApp/app/src/main/java/com/itp/imagetopdfapp/viewModel/PdfViewModel.kt:146 | Kotlin `Int` division rounds toward zero: for a ≥ 0 the quotient is the floor, for a < 0 the ceiling of a/b |
| SampleSize.InSampleSize | ImageToPDFApp/app/src/main/java/com/itp/imagetopdfapp/viewModel/PdfViewModel.kt:141-150 | an image within both bounds gets factor exactly 1; over a bound (non-negative sides) the factor is the largest s ≥ 0 with s·reqH ≤ h and s·reqW ≤ w |
| SampleSize.ZeroFactorIff | ImageToPDFApp/app/src/main/java/com/itp/imagetopdfapp/viewModel/PdfViewModel.kt:145-146 | with no clamp, the factor is 0 exactly when one side exceeds its bound and the other is below its own |
| SampleSize.TallNarrowImageGetsZero | ImageToPDFApp/app/src/main/java/com/itp/imagetopdfapp/viewModel/PdfViewModel.kt:130 | with the bounds (1080, 1920), an 800×3000 image gets factor 0 |
| SampleSize.WideImageStaysOverWidthBound | ImageToPDFApp/app/src/main/java/com/itp/imagetopdfapp/PdfGenerator.kt:55-75 | the generator's copy, with the same bounds, gives a 4000×3000 image factor 1, so it stays 4000 wide |
| SampleSize.FailedProbeIsOne | ImageToPDFApp/app/src/main/java/com/itp/imagetopdfapp/PdfGenerator.kt:66-75 | an unreadable header (−1×−1) counts as within bounds: factor 1 |
| Decoder.SafeDecode | ImageToPDFApp/app/src/main/java/com/itp/imagetopdfapp/viewModel/PdfViewModel.kt:118-138 | the result is a bitmap exactly when the probe did not throw and the decode with the probe's factor yielded one, and then it is that bitmap |
| Decoder.DecodeBitmapSafely | ImageToPDFApp/app/src/main/java/com/itp/imagetopdfapp/viewModel/PdfViewModel.kt:118-138 | never throws: the bitmap, or None when the probe or decode threw or yielded null; the decode uses the factor from the probed bounds; one stream is opened for the probe and a second unless the probe threw |
| Decoder.WithinBoundsDecodedAtFullSize | ImageToPDFApp/app/src/main/java/com/itp/imagetopdfapp/viewModel/PdfViewModel.kt:125-135 | an image whose probe fits both bounds, or opened no stream (fields left at 0), is decoded with inSampleSize 1 |
| Decoder.DecodedRun | ImageToPDFApp/app/src/main/java/com/itp/imagetopdfapp/PdfGenerator.kt:26-28 | the bitmaps decoded in order up to the first null: each equals its image's decode, and the image after the run does not decode |
| Decoder.Attempted | ImageToPDFApp/app/src/main/java/com/itp/imagetopdfapp/PdfGenerator.kt:26-28 | the number of images decoded never exceeds the number given |
| Decoder.DecodedRunEndsAt | ImageToPDFApp/app/src/main/java/com/itp/imagetopdfapp/viewModel/PdfViewModel.kt:60-63 | when the first i images decode and image i does not, the run is exactly those i bitmaps |
| Document.Paginate | ImageToPDFApp/app/src/main/java/com/itp/imagetopdfapp/viewModel/PdfViewModel.kt:65-68 | one page per bitmap in order, page k sized to bitmap k and numbered first + k |
| Document.PdfDocument.constructor | ImageToPDFApp/app/src/main/java/com/itp/imagetopdfapp/viewModel/PdfViewModel.kt:57 | a new document is empty and open |
| Document.PdfDocument.AddPage | ImageToPDFApp/app/src/main/java/com/itp/imagetopdfapp/PdfGenerator.kt:30-33 | appends exactly one page sized to the bitmap with the given number |
| Document.PdfDocument.Close | ImageToPDFApp/app/src/main/java/com/itp/imagetopdfapp/PdfGenerator.kt:38 | closes the document, pages unchanged |
| Pages.AddNextPage | ImageToPDFApp/app/src/main/java/com/itp/imagetopdfapp/PdfGenerator.kt:27-33 | one image: decoded exactly when its decode is not null, and then one page sized to it and numbered index + 1 is appended; its streams are logged |
| Pages.ComposePages | ImageToPDFApp/app/src/main/java/com/itp/imagetopdfapp/PdfGenerator.kt:26-35 | the document gets the pages of the decoded run; the index of the first failing image is returned; only the images up to it have streams opened; rows untouched |
| MediaStore.AfterWrite | ImageToPDFApp/app/src/main/java/com/itp/imagetopdfapp/PdfGenerator.kt:99-101 | a write changes only a row's bytes: none without a stream or when opening it threw, part of the document when writeTo threw, the whole document after a complete write (even if closing then threw) |
| MediaStore.ContentResolver.constructor | ImageToPDFApp/app/src/main/java/com/itp/imagetopdfapp/viewModel/PdfViewModel.kt:102-103 | an empty collection whose empty log replays to it |
| MediaStore.ContentResolver.OpenInputStream | ImageToPDFApp/app/src/main/java/com/itp/imagetopdfapp/viewModel/PdfViewModel.kt:125 | logs the open; rows and pending flags unchanged |
| MediaStore.ContentResolver.Insert | ImageToPDFApp/app/src/main/java/com/itp/imagetopdfapp/viewModel/PdfViewModel.kt:105 | a new row with the given values at a fresh uri, or null and nothing changed |
| MediaStore.ContentResolver.WriteDocument | ImageToPDFApp/app/src/main/java/com/itp/imagetopdfapp/viewModel/PdfViewModel.kt:107-109 | only the target row's bytes change, as `AfterWrite`; a write is logged exactly when a stream opened; the exception, with its message, is returned exactly when opening, writing or closing threw |
| MediaStore.ContentResolver.Update | ImageToPDFApp/app/src/main/java/com/itp/imagetopdfapp/viewModel/PdfViewModel.kt:111-113 | sets only IS_PENDING of that row |
| MediaStore.WritesWhilePendingSnoc | ImageToPDFApp/app/src/main/java/com/itp/imagetopdfapp/viewModel/PdfViewModel.kt:99-113 | a log stays writes-while-pending when each new write goes to a pending row |
| Naming.Decimal | ImageToPDFApp/app/src/main/java/com/itp/imagetopdfapp/viewModel/PdfViewModel.kt:93 | decimal digits, at least one, with no leading zero, whose value read most significant first is the number |
| Naming.FileName | ImageToPDFApp/app/src/main/java/com/itp/imagetopdfapp/viewModel/PdfViewModel.kt:93 | the name starts with "pdf_" and ends with ".pdf" |
| Naming.FileNameEncodesTimestamp | ImageToPDFApp/app/src/main/java/com/itp/imagetopdfapp/viewModel/PdfViewModel.kt:93 | between "pdf_" and ".pdf" the name holds only digits, and they read back as the timestamp |
| Naming.FileNameInjective | ImageToPDFApp/app/src/main/java/com/itp/imagetopdfapp/PdfGenerator.kt:82 | `pdf_<millis>.pdf` names are equal exactly when the milliseconds are |
| ViewModel.PdfViewModel.constructor | ImageToPDFApp/app/src/main/java/com/itp/imagetopdfapp/viewModel/PdfViewModel.kt:33-36 | no selection and no last PDF |
| ViewModel.PdfViewModel.UpdateImages | ImageToPDFApp/app/src/main/java/com/itp/imagetopdfapp/viewModel/PdfViewModel.kt:38-40 | the selection becomes the given list; lastPdf unchanged |
| ViewModel.Dispatch | ImageToPDFApp/app/src/main/java/com/itp/imagetopdfapp/viewModel/PdfViewModel.kt:50-51 | onSuccess exactly for a success, with its file; otherwise onError with the exception's message, or "오류" when it has none |
| ViewModel.PdfViewModel.ConvertPdf | ImageToPDFApp/app/src/main/java/com/itp/imagetopdfapp/viewModel/PdfViewModel.kt:43-53 | exactly one callback, `Dispatch` of `VmGenerate`'s result; rows, log and lastPdf as `VmGenerate` leaves them; every write lands on a pending row |
| ViewModel.PdfViewModel.GeneratePdf | ImageToPDFApp/app/src/main/java/com/itp/imagetopdfapp/viewModel/PdfViewModel.kt:56-89 | result, rows and log as `VmGenerate`; only images up to the first failure are opened; lastPdf set to the (nullable) file on success and unchanged on failure; document closed exactly on success |
| ViewModel.PdfViewModel.SavePdfToDownloads | ImageToPDFApp/app/src/main/java/com/itp/imagetopdfapp/viewModel/PdfViewModel.kt:92-116 | result, rows and events as `VmSave`; every write lands on a pending row |
| ViewModel.VmSaveWritesWhilePending | ImageToPDFApp/app/src/main/java/com/itp/imagetopdfapp/viewModel/PdfViewModel.kt:99-113 | the row is inserted pending before any byte is written, and the flag is cleared only after the write |
| ViewModel.VmSaveKeepsOtherRows | ImageToPDFApp/app/src/main/java/com/itp/imagetopdfapp/viewModel/PdfViewModel.kt:105-113 | at most one row is added; earlier rows are unchanged |
| ViewModel.VmSaveClearsPendingIff | ImageToPDFApp/app/src/main/java/com/itp/imagetopdfapp/viewModel/PdfViewModel.kt:107-113 | the new row leaves pending exactly when no exception ended the write block; it holds no bytes exactly when no stream opened or opening threw, part of the document exactly when writeTo threw, and the whole document exactly after a complete write (closed or not) |
| ViewModel.VmSaveCommitsEmptyRowWithoutStream | ImageToPDFApp/app/src/main/java/com/itp/imagetopdfapp/viewModel/PdfViewModel.kt:107-115 | with a null output stream, nothing is written yet pending is cleared and the file returned |
| ViewModel.VmSaveRefusedInsertReturnsNull | ImageToPDFApp/app/src/main/java/com/itp/imagetopdfapp/viewModel/PdfViewModel.kt:105 | a null insert returns null, stores nothing, logs nothing |
| ViewModel.VmGenerateOnePagePerImage | ImageToPDFApp/app/src/main/java/com/itp/imagetopdfapp/viewModel/PdfViewModel.kt:60-68 | on success the stored PDF has one page per image in order, page k numbered k+1 and sized to bitmap k |
| ViewModel.VmGenerateStopsAtFirstFailure | ImageToPDFApp/app/src/main/java/com/itp/imagetopdfapp/viewModel/PdfViewModel.kt:60-63 | at the first image k that fails, the result is "이미지 불러오기 실패", nothing is stored, and exactly k+1 images are decoded |
| ViewModel.ConvertCallbacks | ImageToPDFApp/app/src/main/java/com/itp/imagetopdfapp/viewModel/PdfViewModel.kt:48-52 | a load failure gives onError with its message; a stream exception gives onError with its message, or "오류" without one; a refused insert gives onSuccess(null); a save with no exception gives onSuccess with the file |
| Generator.GeneratePdf | ImageToPDFApp/app/src/main/java/com/itp/imagetopdfapp/PdfGenerator.kt:19-41 | result, rows and log as `GenGenerate`; the document is closed exactly when the save did not throw |
| Generator.SaveToDownloads | ImageToPDFApp/app/src/main/java/com/itp/imagetopdfapp/PdfGenerator.kt:78-104 | result, rows and events as `GenSave`; every write lands on a pending row |
| Generator.GenSaveWritesWhilePending | ImageToPDFApp/app/src/main/java/com/itp/imagetopdfapp/PdfGenerator.kt:84-101 | the row is inserted pending before any byte is written |
| Generator.GenSaveLeavesRowPending | ImageToPDFApp/app/src/main/java/com/itp/imagetopdfapp/PdfGenerator.kt:84-103 | the new row stays pending whatever the write did; no update is ever logged |
| Generator.GenSaveRefusedInsertThrows | ImageToPDFApp/app/src/main/java/com/itp/imagetopdfapp/PdfGenerator.kt:95-97 | a null insert throws "다운로드 폴더에 파일 생성 실패" and nothing is written |
| Generator.GenSaveSkipsWriteWithoutStream | ImageToPDFApp/app/src/main/java/com/itp/imagetopdfapp/PdfGenerator.kt:99-103 | a null output stream skips the write silently and the file is still returned |
| Generator.GenGenerateStopsAtFirstFailure | ImageToPDFApp/app/src/main/java/com/itp/imagetopdfapp/PdfGenerator.kt:26-28 | at the first image k that fails, the exception message names uri k, nothing is stored, and exactly k+1 images are decoded |
| Generator.GenGenerateOnePagePerImage | ImageToPDFApp/app/src/main/java/com/itp/imagetopdfapp/PdfGenerator.kt:26-40 | on success the stored PDF has one page per uri in order, numbered index+1 and sized to the decoded bitmap |
| Comparison.SavesDifferOnlyInPending | ImageToPDFApp/app/src/main/java/com/itp/imagetopdfapp/PdfGenerator.kt:84-103 | both copies store the same row; only the view model clears pending, and only when no exception ended the write block |
| Comparison.SavesAgreeOnSuccess | ImageToPDFApp/app/src/main/java/com/itp/imagetopdfapp/viewModel/PdfViewModel.kt:105-115 | after an insert both succeed or both fail, with the same file |
| Comparison.RefusedInsertDiffers | ImageToPDFApp/app/src/main/java/com/itp/imagetopdfapp/viewModel/PdfViewModel.kt:105 | on a null insert the view model succeeds with null while the generator fails; neither stores a row |
| Comparison.DecodeFailureMessages | ImageToPDFApp/app/src/main/java/com/itp/imagetopdfapp/PdfGenerator.kt:27-28 | both fail at the same image: a fixed message in the view model, the uri in the generator's |
| Comparison.DistinctTimestampsDistinctFiles | ImageToPDFApp/app/src/main/java/com/itp/imagetopdfapp/viewModel/PdfViewModel.kt:93 | saves at different milliseconds return different files |

## Left out

- The pixels: BitmapFactory's decoding, its handling of `inSampleSize` (it rounds down to a power of two and treats values ≤ 1 as 1) and the RGB_565 configuration. Decodes are oracles that give only bitmap sizes.
- Canvas drawing and PDF serialisation (`drawBitmap`, `PdfDocument.writeTo`). A page is its size and number, and a complete write stores the page list.
- `bitmap.recycle()`. It has no observable effect in the model. Closing the output stream is modelled only by the exception it may throw.
- Exceptions from `insert` and `update` themselves, MediaStore's renaming of duplicate display names, and what other readers see of pending rows. Only the IS_PENDING flag is modelled.
- Each platform outcome is fixed for one run. The same uri always probes and decodes the same way, and one insert and one write outcome apply per save.
- 32-bit `Int` and 64-bit `Long` widths. Dividing by the positive constants 1080 and 1920 cannot overflow. The timestamp is taken as non-negative (`nat`).
- Coroutine dispatching (`viewModelScope.launch`, `withContext(Dispatchers.IO)`). Everything runs sequentially.
- The duplicated `lastPdf = file` and the discarded `Result.success(file)` expression statement in the view model's generatePdf. They are modelled as a single assignment.
- `openPdf` and `sharePdf`: intent glue over `lastPdf`.
- MainActivity (Compose UI, toasts, notifications), PdfForegroundService (service lifecycle) and App (a singleton holder).
- The UI's guards (a selection update only with a non-empty list, conversion enabled only with a non-empty selection) are not preconditions. The model handles the empty selection the way the code does.
- onSuccess is declared with a non-null `File` but receives the null that the view model's unchecked cast lets through. The model passes the nullable file on.
