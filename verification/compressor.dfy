/** The PDF compressor (`pdf-compressor/main.js`): `compressPDF`'s page
    loop, which re-renders every page at the preset's resolution and puts
    the JPEG on a new page of the original size; the single-file and
    multiple-file handlers; and the dispatch of the file input and the drop
    area, including the refusal of several files on a mobile client.
    Rendering, JPEG encoding, PDF writing and zipping are abstracted: a JPEG
    is described by the page it shows and how it was rendered. */
module Compressor {
  import opened Names
  import opened Documents
  import opened Progress
  import opened Presets

  datatype Option<T> = None | Some(value: T)

  /** A page's JPEG: the page it shows, the pixel size it was rendered at
      (the page size times `dpi / 72`) and the encoder quality. */
  datatype Jpeg = Jpeg(source: Page, pixelWidth: real, pixelHeight: real, quality: nat)

  /** Where an image is drawn on its page, in PDF points. */
  datatype Placement = Placement(x: real, y: real, width: real, height: real)

  datatype OutPage = OutPage(width: real, height: real, image: Jpeg, at: Placement)

  datatype Pdf = Pdf(pages: seq<OutPage>)

  datatype ZipEntry = ZipEntry(name: string, pdf: Pdf)

  /** The zip entry `handleMultiple` adds for a file it finishes: the
      compressed document under the `_compressed.pdf` name. */
  function EntryOf(f: SourceFile, s: Setting): ZipEntry {
    ZipEntry(CompressedName(f.name), CompressAll(f, s))
  }

  const PdfMime: string := "application/pdf"
  const ZipName: string := "compressed_pdfs.zip"

  /** The new page has the size of the source page at scale 1. */
  predicate SameGeometry(o: OutPage, p: Page) {
    o.width == p.width && o.height == p.height
  }

  /** The image is drawn from the origin over the whole page. */
  predicate FullBleed(o: OutPage) {
    o.at == Placement(0.0, 0.0, o.width, o.height)
  }

  /** One iteration of the loop in `compressPDF`. */
  function CompressPage(p: Page, s: Setting): (o: OutPage)
    ensures SameGeometry(o, p) && FullBleed(o)
    ensures o.image.source == p && o.image.quality == s.quality
  {
    var k := Scale(s);
    OutPage(p.width, p.height, Jpeg(p, p.width * k, p.height * k, s.quality), Placement(0.0, 0.0, p.width, p.height))
  }

  /** The whole document compressed with one setting. */
  function CompressAll(f: SourceFile, s: Setting): (d: Pdf)
    ensures |d.pages| == |f.pages|
  {
    Pdf(seq(|f.pages|, i requires 0 <= i < |f.pages| => CompressPage(f.pages[i], s)))
  }

  /** The output's geometry does not depend on the setting: two settings
      give page-for-page the same sizes and placements, only the pixels and
      the quality differ. */
  lemma GeometryIndependentOfDpi(f: SourceFile, s1: Setting, s2: Setting)
    ensures |CompressAll(f, s1).pages| == |CompressAll(f, s2).pages| == |f.pages|
    ensures forall i :: 0 <= i < |f.pages| ==>
      && SameGeometry(CompressAll(f, s1).pages[i], f.pages[i])
      && SameGeometry(CompressAll(f, s2).pages[i], f.pages[i])
      && CompressAll(f, s1).pages[i].at == CompressAll(f, s2).pages[i].at
  {
  }

  /** `compressPDF(file)`: `before` pages of the run have finished when it
      starts. Returns no document when a check sees the cancel flag, and the
      values handed to the progress bar after each finished page. */
  method CompressPdf(file: SourceFile, preset: string, isMobile: bool, cancel: Cancel, before: nat)
    returns (result: Option<Pdf>, progress: seq<real>)
    ensures result.None? <==> |file.pages| > 0 && cancel.Raised(before + |file.pages| - 1)
    ensures result.Some? ==> result.value == CompressAll(file, EffectiveSetting(preset, isMobile))
    ensures result.Some? ==> |progress| == |file.pages|
    ensures result.None? && cancel.NotBefore(before) ==> cancel.AfterPages? && |progress| == cancel.n - before
    ensures |progress| <= |file.pages|
    ensures forall j :: 0 <= j < |progress| ==> progress[j] == PagePercent(j + 1, |file.pages|)
  {
    var setting := EffectiveSetting(preset, isMobile);
    var n := |file.pages|;
    var pages: seq<OutPage> := [];
    progress := [];
    var i := 1;
    while i <= n
      invariant 1 <= i <= n + 1
      invariant |pages| == i - 1 && |progress| == i - 1
      invariant forall j :: 0 <= j < i - 1 ==> pages[j] == CompressPage(file.pages[j], setting)
      invariant forall j :: 0 <= j < i - 1 ==> progress[j] == PagePercent(j + 1, n)
      invariant i > 1 ==> !cancel.Raised(before + i - 2)
    {
      if cancel.Raised(before + i - 1) {
        return None, progress;
      }
      pages := pages + [CompressPage(file.pages[i - 1], setting)];
      progress := progress + [PagePercent(i, n)];
      i := i + 1;
    }
    result := Some(Pdf(pages));
  }

  /** Within one call the bar stays within 0..100, never goes down, and a
      finished document ends at exactly 100. */
  lemma BarWithinOneFile(progress: seq<real>, pages: nat)
    requires 0 < pages && |progress| <= pages
    requires forall j :: 0 <= j < |progress| ==> progress[j] == PagePercent(j + 1, pages)
    ensures forall j :: 0 <= j < |progress| ==> 0.0 <= progress[j] <= 100.0
    ensures forall i, j :: 0 <= i <= j < |progress| ==> progress[i] <= progress[j]
    ensures forall j :: 0 <= j < |progress| ==> (progress[j] == 100.0 <==> j + 1 == pages)
  {
    forall j | 0 <= j < |progress|
      ensures 0.0 <= progress[j] <= 100.0 && (progress[j] == 100.0 <==> j + 1 == pages)
    {
      PagePercentBounds(j + 1, pages);
    }
    forall i, j | 0 <= i <= j < |progress|
      ensures progress[i] <= progress[j]
    {
      PagePercentMonotone(i + 1, j + 1, pages);
    }
  }

  datatype SingleOutcome = SingleCanceled | SingleDone(downloadName: string, pdf: Pdf)

  /** `handleSingle(file)`: compress, then read the flag once more; offer
      the document under its `_compressed.pdf` name only if it stayed down. */
  method HandleSingle(file: SourceFile, preset: string, isMobile: bool, cancel: Cancel) returns (o: SingleOutcome)
    ensures o.SingleCanceled? <==> cancel.Raised(|file.pages|)
    ensures o.SingleDone? ==> o.downloadName == CompressedName(file.name)
    ensures o.SingleDone? ==> o.pdf == CompressAll(file, EffectiveSetting(preset, isMobile))
  {
    var result, progress := CompressPdf(file, preset, isMobile, cancel, 0);
    var finished := |progress|;
    if cancel.Raised(finished) || result.None? {
      return SingleCanceled;
    }
    return SingleDone(CompressedName(file.name), result.value);
  }

  /** One iteration of `handleMultiple`'s loop: the check before file `k`,
      then `compressPDF` on it. It yields the zip entry unless some check
      for this file saw the flag; `after` is the pages finished so far. */
  method CompressFileAt(files: seq<SourceFile>, k: nat, preset: string, isMobile: bool, cancel: Cancel, done: nat)
    returns (entry: Option<ZipEntry>, after: nat)
    requires k < |files| && done == PagesBefore(files, k) && cancel.NotBefore(done)
    ensures entry.Some? <==> !cancel.Raised(LastCheck(files, k))
    ensures entry.Some? ==> entry.value == EntryOf(files[k], EffectiveSetting(preset, isMobile))
    ensures entry.Some? ==> after == PagesBefore(files, k + 1) && cancel.NotBefore(after)
    ensures entry.None? ==> cancel.Raised(after) && after <= PagesBefore(files, k + 1)
  {
    if cancel.Raised(done) {
      return None, done;
    }
    var result, progress := CompressPdf(files[k], preset, isMobile, cancel, done);
    after := done + |progress|;
    if result.None? {
      return None, after;
    }
    return Some(ZipEntry(CompressedName(files[k].name), result.value)), after;
  }

  /** Checks happen in order, so if the last check for file `k - 1` did not
      see the flag, no check for an earlier file did. */
  lemma UnseenBefore(files: seq<SourceFile>, cancel: Cancel, k: nat)
    requires k <= |files|
    requires k > 0 ==> !cancel.Raised(LastCheck(files, k - 1))
    ensures forall j :: 0 <= j < k ==> !cancel.Raised(LastCheck(files, j))
  {
    forall j | 0 <= j < k
      ensures !cancel.Raised(LastCheck(files, j))
    {
      LastCheckMonotone(files, j, k - 1);
    }
  }

  /** The `for` loop of `handleMultiple`: files in input order, each
      preceded by a check of the flag, until a check sees it. `zip` holds
      the finished files' entries and `done` the pages finished by then. */
  method CompressEach(files: seq<SourceFile>, preset: string, isMobile: bool, cancel: Cancel)
    returns (zip: seq<ZipEntry>, done: nat)
    ensures |zip| <= |files|
    ensures forall j {:trigger zip[j]} :: 0 <= j < |zip| ==> zip[j] == EntryOf(files[j], EffectiveSetting(preset, isMobile))
    ensures forall j :: 0 <= j < |zip| ==> !cancel.Raised(LastCheck(files, j))
    ensures |zip| < |files| ==> cancel.Raised(LastCheck(files, |zip|)) && cancel.Raised(done) && done <= TotalPages(files)
    ensures |zip| == |files| ==> done == TotalPages(files)
  {
    var setting := EffectiveSetting(preset, isMobile);
    zip := [];
    done := 0;
    var k := 0;
    while k < |files|
      invariant k == |zip| <= |files|
      invariant forall j {:trigger zip[j]} :: 0 <= j < k ==> zip[j] == EntryOf(files[j], setting)
      invariant k > 0 ==> !cancel.Raised(LastCheck(files, k - 1))
      invariant done == PagesBefore(files, k) && cancel.NotBefore(done)
    {
      var entry, after := CompressFileAt(files, k, preset, isMobile, cancel, done);
      if entry.None? {
        PagesBeforeMonotone(files, k + 1, |files|);
        UnseenBefore(files, cancel, k);
        done := after;
        return;
      }
      zip := zip + [entry.value];
      k := k + 1;
      done := after;
    }
    UnseenBefore(files, cancel, k);
  }

  datatype MultipleOutcome = MultipleRefused | MultipleRan(zip: seq<ZipEntry>, download: Option<string>)

  /** `handleMultiple(files)`: refused on a mobile client; otherwise one zip
      entry per file compressed before the flag was seen, and the zip is
      offered only if the flag is down after the loop. */
  method HandleMultiple(files: seq<SourceFile>, preset: string, isMobile: bool, cancel: Cancel)
    returns (o: MultipleOutcome)
    ensures o.MultipleRefused? <==> isMobile
    ensures o.MultipleRan? ==> |o.zip| <= |files|
    ensures o.MultipleRan? ==> forall j {:trigger o.zip[j]} :: 0 <= j < |o.zip| ==>
      o.zip[j] == EntryOf(files[j], EffectiveSetting(preset, isMobile))
    ensures o.MultipleRan? ==> forall j :: 0 <= j < |o.zip| ==> !cancel.Raised(LastCheck(files, j))
    ensures o.MultipleRan? && |o.zip| < |files| ==> cancel.Raised(LastCheck(files, |o.zip|))
    ensures o.MultipleRan? ==> (o.download.Some? <==> !cancel.Raised(TotalPages(files)))
    ensures o.MultipleRan? && o.download.Some? ==> o.download.value == ZipName && |o.zip| == |files|
  {
    if isMobile {
      return MultipleRefused;
    }
    var zip, done := CompressEach(files, preset, isMobile, cancel);
    // The flag is read once more after the loop.
    var download := if cancel.Raised(done) then None else Some(ZipName);
    return MultipleRan(zip, download);
  }

  // ---------------------------------------------------------------------
  // Dispatch.

  datatype RunOutcome =
    | Refused
    | SingleRun(single: SingleOutcome)
    | MultipleRun(zip: seq<ZipEntry>, download: Option<string>)

  /** What starting a run on `files` promises: several files are refused on
      a mobile client; one file takes the single path, cancelled exactly
      when the flag is up after its last page and otherwise offered as
      `{name}_compressed.pdf`; any other count (zero included) takes the
      multiple path on desktop, whose zip holds the entries of the files
      finished before the flag was seen, in input order, and is offered as
      `compressed_pdfs.zip` exactly when the flag is down at the end. */
  predicate Dispatched(files: seq<SourceFile>, preset: string, isMobile: bool, cancel: Cancel, o: RunOutcome) {
    var setting := EffectiveSetting(preset, isMobile);
    && (o.Refused? <==> isMobile && |files| != 1)
    && (o.SingleRun? <==> |files| == 1)
    && (o.MultipleRun? <==> !isMobile && |files| != 1)
    && (o.SingleRun? ==> (o.single.SingleCanceled? <==> cancel.Raised(|files[0].pages|)))
    && (o.SingleRun? && o.single.SingleDone? ==>
          o.single.downloadName == CompressedName(files[0].name) && o.single.pdf == CompressAll(files[0], setting))
    && (o.MultipleRun? ==> |o.zip| <= |files|)
    && (o.MultipleRun? ==> forall j {:trigger o.zip[j]} :: 0 <= j < |o.zip| ==>
          o.zip[j] == EntryOf(files[j], setting) && !cancel.Raised(LastCheck(files, j)))
    && (o.MultipleRun? && |o.zip| < |files| ==> cancel.Raised(LastCheck(files, |o.zip|)))
    && (o.MultipleRun? ==> (o.download.Some? <==> !cancel.Raised(TotalPages(files))))
    && (o.MultipleRun? && o.download.Some? ==> o.download.value == ZipName && |o.zip| == |files|)
  }

  /** The file input's `change` handler: several files are refused on a
      mobile client, one file takes the single path, and any other count
      (zero included) takes the multiple path, which itself refuses on mobile. */
  method OnFilesChosen(files: seq<SourceFile>, preset: string, isMobile: bool, cancel: Cancel)
    returns (o: RunOutcome)
    ensures Dispatched(files, preset, isMobile, cancel, o)
  {
    if isMobile && |files| > 1 {
      return Refused;
    }
    if |files| == 1 {
      var s := HandleSingle(files[0], preset, isMobile, cancel);
      return SingleRun(s);
    }
    var m := HandleMultiple(files, preset, isMobile, cancel);
    if m.MultipleRefused? {
      return Refused;
    }
    return MultipleRun(m.zip, m.download);
  }

  /** The drop area's test: the reported type is `application/pdf`. */
  predicate HasPdfType(f: SourceFile) {
    f.mimeType == PdfMime
  }

  /** The drop area's filter (`filter(f => f.type === "application/pdf")`). */
  function KeepPdfType(files: seq<SourceFile>): (r: seq<SourceFile>)
    ensures forall f :: f in r <==> f in files && f.mimeType == PdfMime
    ensures |r| <= |files|
    ensures (forall f :: f in files ==> f.mimeType == PdfMime) ==> r == files
  {
    KeepFacts(files, HasPdfType);
    Keep(files, HasPdfType)
  }

  /** The type filter keeps the dropped order and every copy: it
      distributes over concatenation. */
  lemma {:induction false} KeepPdfTypeDistributes(a: seq<SourceFile>, b: seq<SourceFile>)
    ensures KeepPdfType(a + b) == KeepPdfType(a) + KeepPdfType(b)
  {
    KeepDistributes(a, b, HasPdfType);
  }

  /** The drop handler: filter by type, then dispatch the kept files, in
      dropped order, as the file input does. */
  method OnDrop(dropped: seq<SourceFile>, preset: string, isMobile: bool, cancel: Cancel)
    returns (o: RunOutcome)
    ensures Dispatched(KeepPdfType(dropped), preset, isMobile, cancel, o)
  {
    o := OnFilesChosen(KeepPdfType(dropped), preset, isMobile, cancel);
  }

  /** A single dropped `a.pdf` of type `application/pdf` takes the single
      path on any client, and unless cancelled is offered as
      `a_compressed.pdf`. */
  lemma OneDroppedPdfIsOffered(pages: seq<Page>, preset: string, isMobile: bool, cancel: Cancel, o: RunOutcome)
    requires Dispatched(KeepPdfType([SourceFile("a.pdf", PdfMime, pages)]), preset, isMobile, cancel, o)
    ensures o.SingleRun?
    ensures o.single.SingleDone? <==> !cancel.Raised(|pages|)
    ensures o.single.SingleDone? ==> o.single.downloadName == "a_compressed.pdf"
  {
    var f := SourceFile("a.pdf", PdfMime, pages);
    OnePdfTypeKept(f);
    ACompressedName();
  }

  lemma OnePdfTypeKept(f: SourceFile)
    requires f.mimeType == PdfMime
    ensures KeepPdfType([f]) == [f]
  {
    assert forall g :: g in [f] ==> g.mimeType == PdfMime;
  }

  lemma ACompressedName()
    ensures CompressedName("a.pdf") == "a_compressed.pdf"
  {
    assert MatchesPdfSuffix("a.pdf");
    assert "a.pdf"[..1] == "a";
  }
}
