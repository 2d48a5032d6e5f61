# pdf-tools decision logic in Dafny

This project models the pure decision layer of two browser tools: a PDF-to-JPEG page extractor (`main.js`) and a PDF compressor (`pdf-compressor/main.js`). The PDF renderer, the JPEG encoder, the PDF writer and the zip archiver are abstracted away. A document is a sequence of pages, each with its scale-1 width and height in PDF points. A rendered JPEG is described by the page it shows and how it was rendered.

Modules:

- `Names` (`names.dfy`) holds the string rules:
  - the `.pdf` input test `name.toLowerCase().endsWith(".pdf")`;
  - the `/\.pdf$/i` rewrites: the base name and `{name}_compressed.pdf`;
  - `String(n)` and `padStart(3, "0")`;
  - the JPEG entry name `{base}_{NNN}.jpg`;
  - the thumbnail caption `{file} - p.{n}`.
- `Presets` (`presets.dfy`): the quality preset table and the mobile override. JPEG quality is in integer hundredths.
- `Progress` (`progress.dfy`):
  - the cancel point;
  - the extractor's integer percentage;
  - the compressor's exact `(i / pages) * 100`.
- `Documents` (`documents.dfy`):
  - files and pages;
  - the page pre-count `TotalPages`;
  - the visiting order `Schedule`: files in input order, pages from 1 up;
  - `LastCheck`, the moment of the last cancel check made for a file;
  - `Keep`, the in-order `filter` that both tools' input filters use.
- `Extractor` (`extractor.dfy`):
  - the drop and folder filters;
  - `processFiles` as nested recursive loops with cancel checks, thumbnails, JPEG entries and the single-JPEG-or-zip download.
- `Compressor` (`compressor.dfy`):
  - `compressPDF` as a loop method;
  - `handleSingle` and `handleMultiple`;
  - the file-input and drop dispatch.

**Cancellation.** The cancel click sets a flag asynchronously. The loops read the flag only before each file and before each page. A page in flight always finishes. The model covers one run at a time, and no code inside a run clears that run's flag. So every timing of the click is described by `Cancel.AfterPages(n)`: every check made once `n` pages have finished sees the flag, and every earlier check does not. `Never` means no click. The model admits a few timings the browser cannot produce, such as a flag seen by a check with no `await` before it. It covers every timing the browser can produce.

**Behaviour of the code worth knowing.**
- In the compressor's multiple-file path the progress bar starts again for each file. `compressPDF` sets it from the page index of the current file (`pdf-compressor/main.js:140`). `CompressPdf` states the per-file values, and `BarWithinOneFile` proves monotonicity within one file.
- The compressor's drop handler filters on the reported MIME type `application/pdf` (`pdf-compressor/main.js:274`), not on the name. Its file input does no filtering at all.
- In the extractor, a cancel can still lead to a download: see Findings. The extractor's entry points (`Extractor.OnDrop`, `Extractor.OnFolder`) start the run as written, `Extractor.ProcessFilesAsWritten`. `Extractor.ProcessFiles` is the corrected run.

## Model

| member | source | states |
|---|---|---|
| Names.PdfTestsAgree | main.js:66-68 | The lower-case-then-`endsWith(".pdf")` test accepts exactly the names that `/\.pdf$/i` matches. |
| Names.StripPdfSuffix | main.js:151 | The base name is a prefix of the file name. It is exactly 4 characters shorter when the name ends in a case variant of `.pdf`, and equal to the name otherwise. |
| Names.StripRestoresBase | main.js:151 | Any base followed by any case variant of `.pdf` strips back to that base. |
| Names.CompressedName | pdf-compressor/main.js:166 | A trailing case-insensitive `.pdf` becomes `_compressed.pdf`. Other names are returned unchanged. |
| Names.CompressedNameKeepsPdfTest | pdf-compressor/main.js:204 | The renamed file passes the `.pdf` test exactly when the original did, and a renamed PDF ends in `_compressed.pdf`. |
| Names.Decimal | main.js:204 | `String(n)` is a non-empty digit string with no leading zero. It has one digit exactly below 10 and at least three from 100 on. |
| Names.PadStart | main.js:178 | `padStart` yields `max(len, width)` characters. The result ends with the input and is filled with the pad character in front: it never truncates. |
| Names.Pad3RoundTrip | main.js:173 | The padded page number has exactly 3 digits below 1000 and equals `String(n)` from 100 on. It reads back as `n`. |
| Names.Pad3Injective | main.js:178 | Different page numbers give different padded strings. |
| Names.JpegNameReadsBack | main.js:179 | `{base}_{NNN}.jpg` starts with the base and an underscore and ends in `.jpg`. Its middle reads back as the page number. |
| Names.JpegNamesDistinct | main.js:173 | Two pages of one file never share a JPEG name. |
| Names.CaptionReadsBack | main.js:204 | The caption is the file name, then ` - p.`, then the unpadded page number, which reads back as the page. |
| Presets.TableSetting | pdf-compressor/main.js:32-55 | Any name outside `mobile`, `pc`, `pc-hi`, `print` and `min` gets the (144, 60) fallback. Every entry lies within 72..300 dpi and quality 40..80. |
| Presets.Cap | pdf-compressor/main.js:58-60 | A desktop client keeps the setting. A mobile client never exceeds 144 dpi, and a setting already within the cap passes through. |
| Presets.EffectiveSetting | pdf-compressor/main.js:27-63 | On a mobile client the effective dpi is at most 144. On a desktop client the effective setting is the table entry. |
| Presets.MobileOverride | pdf-compressor/main.js:58-62 | On mobile, presets at or below 144 dpi pass through unchanged. A preset is above the cap exactly when it is `pc-hi` or `print`, and such a preset becomes exactly (144, 60). |
| Presets.EffectiveIsTableEntry | pdf-compressor/main.js:32-62 | The effective setting is always one of the five table entries. |
| Presets.ScaleBounds | pdf-compressor/main.js:92-93 | The render scale `dpi / 72` is at least 1 and at most 300/72 for every preset. On a mobile client it is at most 2. |
| Progress.PercentIsFloor | main.js:212 | The integer percentage equals `floor((processed / total) * 100)` in exact arithmetic. |
| Progress.PercentBounds | main.js:211-213 | The percentage lies in 0..100 and is 100 exactly when `processed == total`. |
| Progress.PercentMonotone | main.js:211-213 | More finished pages never give a smaller percentage. |
| Progress.PagePercentBounds | pdf-compressor/main.js:140 | The compressor's value lies in 0..100 and is 100 exactly after the last page of the file. |
| Progress.PagePercentMonotone | pdf-compressor/main.js:140 | The compressor's value never decreases within one file. |
| Documents.ScheduleLength | main.js:133-138 | The pre-counted `totalPages` equals the number of pages the loop visits. |
| Documents.ScheduleOrdered | main.js:144-153 | Each visited page exists, with its file's name. Files are visited in input order and pages in ascending order. |
| Documents.ScheduleAt | main.js:153 | Page `p` of file `j` is visit number `pages before j + p`. |
| Extractor.FilterPdf | main.js:66-68 | The filter keeps exactly the files whose lower-cased name ends in `.pdf`. It returns the whole list exactly when no file fails the test. |
| Extractor.FilterKeepsOrder | main.js:88 | Filtering distributes over concatenation, so the kept files stay in their original order. |
| Extractor.ConvertPages | main.js:153-214 | Each finished page adds one to `processedPages`, one thumbnail and one JPEG, in visiting order. The loop stops exactly when a page check sees the flag, with `processedPages` equal to the cancel point. |
| Extractor.ConvertFiles | main.js:144-215 | The outer loop either visits every page (`processedPages == totalPages`) or stops at the first check that sees the flag. Thumbnails and JPEGs are exactly those of the pages finished so far. |
| Extractor.RunPages | main.js:129-215 | A run from zero stops exactly when the flag is up at the last check of the last file. |
| Extractor.SinglePdfIsOnePage | main.js:140 | `singlePDF` holds exactly when there is one file and it has exactly one page. |
| Extractor.Bundle | main.js:221-229 | In single-PDF mode the download is the one JPEG. Otherwise it is `converted.zip` with one entry per page under its derived name, in visiting order. |
| Extractor.ProcessFilesAsWritten | main.js:115-241 | An empty list gives `NothingFound`. The run is cancelled exactly when the flag is up at the last check. A cancelled run shows exactly the thumbnails of the pages finished before that check. A completed run shows every page's thumbnail. In `singlePDF` mode it offers one JPEG named `{base}_001.jpg`, otherwise `converted.zip` with every page's JPEG in visiting order. |
| Extractor.ProcessFiles | main.js:115-241 | The corrected run. An empty list gives `NothingFound`. Any raised flag means no download. `singlePDF` gives one JPEG named `{base}_001.jpg`. Otherwise the download is `converted.zip` with every page. |
| Extractor.ThumbProgress | main.js:211-213 | The thumbnail percentages stay within 0..100 and never decrease. A percentage is 100 exactly for the last pre-counted page. |
| Extractor.EntriesOfAFileAreDistinct | main.js:173-179 | The JPEGs of one file have pairwise different names. |
| Extractor.OnePageGivesOneJpeg | main.js:140-175 | One file with one page yields one thumbnail at 100% and a single JPEG named `{base}_001.jpg`. |
| Extractor.TwoOnePageFilesGiveAZip | main.js:176-180 | Two one-page files yield a zip with two JPEGs in input order. |
| Extractor.AsWrittenMissesLateCancel | main.js:146-229 | The code as written differs from the corrected version exactly when the flag goes up after the loop's last check. |
| Extractor.CancelDuringOnlyPage | main.js:153-221 | A cancel while the only page renders still completes as written, but is cancelled in the corrected version. |
| Extractor.OnDrop | main.js:61-77 | A drop starts nothing exactly when no dropped name ends in `.pdf`. A started drop runs `processFiles` as written on the filtered list, which is not empty. |
| Extractor.OnFolder | main.js:85-95 | The warning fires exactly when some file is not a PDF. The filtered list, even an empty one, goes to `processFiles` as written, which finds nothing exactly when no file is a PDF. |
| Compressor.CompressPage | pdf-compressor/main.js:105-134 | The new page has the source page's scale-1 size. The image is drawn at (0,0) over the whole page, at the preset's quality. |
| Compressor.GeometryIndependentOfDpi | pdf-compressor/main.js:107-134 | Two settings give the same page count, sizes and placements. |
| Compressor.CompressPdf | pdf-compressor/main.js:91-145 | The result is null exactly when a page check sees the flag. Otherwise every source page is compressed once, in order, at the effective setting. The bar gets one value per finished page, `(i / pages) * 100`. |
| Compressor.BarWithinOneFile | pdf-compressor/main.js:140 | Within one file the bar stays within 0..100, never decreases, and reaches 100 exactly at the last page. |
| Compressor.HandleSingle | pdf-compressor/main.js:150-181 | The run is cancelled exactly when the flag is up by the end. Otherwise the compressed document is offered as `{name}_compressed.pdf`. |
| Compressor.CompressFileAt | pdf-compressor/main.js:197-204 | The check before a file, followed by `compressPDF` on it, yields the file's `_compressed.pdf` entry exactly when no check for this file saw the flag. When an entry is missing, the flag is up at the page count reached. |
| Compressor.CompressEach | pdf-compressor/main.js:197-212 | The loop holds the entries of the files finished before any check saw the flag, in input order. It stops at the first file whose last check saw the flag, or after every page of every file. |
| Compressor.HandleMultiple | pdf-compressor/main.js:186-231 | Refused on mobile. Otherwise the zip holds one entry per file finished before the flag was seen, in input order. `compressed_pdfs.zip` is offered exactly when the flag is still down after the loop. |
| Compressor.OnFilesChosen | pdf-compressor/main.js:241-253 | A mobile client starts nothing unless there is exactly one file. One file takes the single path: it is cancelled exactly when the flag is up after its last page, and otherwise its compressed document is offered as `{name}_compressed.pdf`. Any other count, zero included, takes the multiple path on desktop: the zip holds the entries of the files finished before the flag was seen, in input order, and `compressed_pdfs.zip` is offered exactly when the flag is down at the end. |
| Compressor.KeepPdfType | pdf-compressor/main.js:274 | The drop filter keeps exactly the files of type `application/pdf`. A list made only of such files passes unchanged, so two dropped copies of one PDF take the multiple path. |
| Compressor.KeepPdfTypeDistributes | pdf-compressor/main.js:274 | The type filter distributes over concatenation, so the kept files keep their order and every copy. |
| Compressor.OnDrop | pdf-compressor/main.js:269-283 | A drop makes every promise of the file input about the `application/pdf` files, in dropped order. On mobile it is refused unless exactly one such file remains. One remaining file is offered as `{name}_compressed.pdf` unless cancelled. Otherwise the zip holds those files' entries in dropped order, up to the first file whose last check saw the flag. |
| Compressor.OneDroppedPdfIsOffered | pdf-compressor/main.js:274-281 | A single dropped `a.pdf` of type `application/pdf` takes the single path on any client. Unless the flag is up after its last page, it is offered as `a_compressed.pdf`. |

## Findings

| source | as written | input that shows it | evidently intended | confidence | as-written member | corrected member |
|---|---|---|---|---|---|---|
| main.js:144-229 | `processFiles` reads the cancel flag only before files and pages. A cancel clicked while the last page renders is never seen. The cancel handler has already said the conversion was cancelled, yet the run then offers its download. | one file with one page, cancel clicked during its render (`AfterPages(1)`) | a raised flag never leads to a download. The compressor does this with its check after the loop. | medium, not executed | Extractor.ProcessFilesAsWritten (shown by Extractor.CancelDuringOnlyPage, characterised by Extractor.AsWrittenMissesLateCancel) | Extractor.ProcessFiles |

## Left out

- DOM, events and UI are not modelled: element updates, class toggles, `alert`, `setTimeout` delays, `location.reload`, object URLs, thumbnail elements apart from the caption, and the completion messages.
- The file picker's `change` handler in `main.js` hands its list to `processFiles` unfiltered, so it is `Extractor.ProcessFilesAsWritten` itself.
- The renderer, canvas and encoders are not modelled: pdf.js rendering, canvas pixel sizes, `toDataURL`, pdf-lib `embedJpg`/`save`, and JSZip `generateAsync`. JPEGs are records naming their page. JSZip's handling of duplicate entry names is not modelled.
- Base64 decoding is not modelled: `dataURLToUint8Array` and the thumbnail byte loop depend on the browser's `atob`.
- Mobile detection (`window.innerWidth < 768`) is a boolean parameter.
- Failures are not modelled. A document that fails to open, render or encode propagates an unhandled failure in the source. The model assumes every file opens.
- Asynchrony is not modelled. It is reduced to the cancel point described above. Overlapping runs share one cancel flag, and a second run clears it when it starts. The model does not cover them. A second run can start in these ways:
  - In the extractor, the drop area stays live during a run. Only the file and folder inputs are disabled (`main.js:117-118`). A drop calls `resetScreen()`, which clears `cancelRequested` (`main.js:12`, `main.js:75`). The file and folder inputs can also start a run once a cancel has re-enabled them.
  - In the compressor, neither the file input nor the drop area is ever disabled. `handleSingle` and `handleMultiple` call `resetUI()`, which clears `isCanceled` (`pdf-compressor/main.js:72`, `:151`, `:192`). `handleMultiple` clears it again at `:230`.
- Compressor.HandleMultiple: one preset serves every file. The source reads the selected radio button again at the start of each `compressPDF` call, so a change of preset between files is not modelled.
- Progress.Percent: computes `processed * 100 / total` exactly. JavaScript's floating-point `Math.floor((p / t) * 100)` can be one lower for some inputs, for example 29/100 gives 28. Bounds, monotonicity and 100-at-the-end hold for both forms.
- Progress.PagePercent: the compressor's `(i / pages) * 100` is an exact rational, not a double.
- Names.Lower: lowering covers ASCII letters only. No other character lowers to `.`, `p`, `d` or `f`, so the `.pdf` test is unaffected. Full Unicode case mapping is not modelled.
- Page sizes are reals, not doubles.
