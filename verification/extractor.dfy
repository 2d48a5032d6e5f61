/** The PDF-to-JPEG extractor (`main.js`): the `.pdf` filter of the drop
    and folder inputs, and `processFiles` with its page pre-count, its
    single-JPEG-or-zip decision, the per-page JPEG name, thumbnail caption
    and progress value, and its checks of the cancel flag. Rendering and
    JPEG encoding are abstracted: the JPEG of a page is named by the page
    it was rendered from. */
module Extractor {
  import opened Names
  import opened Documents
  import opened Progress

  /** A thumbnail appended after a page finishes, with the bar's value at that moment. */
  datatype Thumb = Thumb(source: PageRef, caption: string, percent: nat)

  /** A JPEG ready for download: its file name and the page it shows. */
  datatype JpegEntry = JpegEntry(name: string, source: PageRef)

  datatype Download =
    | SingleJpeg(entry: JpegEntry)
    | Zip(name: string, entries: seq<JpegEntry>)

  /** How a run ends. After `Canceled` the cancel button has re-enabled the
      inputs and after `Completed` the run has; `NothingFound` leaves them
      disabled. */
  datatype Outcome =
    | NothingFound
    | Canceled(thumbs: seq<Thumb>)
    | Completed(thumbs: seq<Thumb>, download: Download)

  const ZipName: string := "converted.zip"

  // ---------------------------------------------------------------------
  // Input filtering.

  /** The drop and folder filter's test: the lower-cased name ends in `.pdf`. */
  predicate HasPdfName(f: SourceFile) {
    IsPdfName(f.name)
  }

  /** The drop and folder filter (`filter(f => f.name.toLowerCase().endsWith(".pdf"))`). */
  function FilterPdf(files: seq<SourceFile>): (r: seq<SourceFile>)
    ensures forall f :: f in r <==> f in files && IsPdfName(f.name)
    ensures |r| <= |files|
    ensures |r| == |files| <==> r == files
    ensures r == files <==> forall f :: f in files ==> IsPdfName(f.name)
  {
    KeepFacts(files, HasPdfName);
    Keep(files, HasPdfName)
  }

  /** Filtering keeps the input order: it distributes over concatenation. */
  lemma {:induction false} FilterKeepsOrder(a: seq<SourceFile>, b: seq<SourceFile>)
    ensures FilterPdf(a + b) == FilterPdf(a) + FilterPdf(b)
  {
    KeepDistributes(a, b, HasPdfName);
  }

  // ---------------------------------------------------------------------
  // The page loop.

  /** The loop's state: pages finished (`processedPages`), thumbnails shown,
      JPEGs collected (into `jpegFiles` in single mode, into the zip
      otherwise: the same name and data either way), and whether a check
      saw the cancel flag. */
  datatype Loop = Loop(processed: nat, thumbs: seq<Thumb>, entries: seq<JpegEntry>, stopped: bool)

  /** The thumbnail of the page finished as number `processed` of `total`. */
  function ThumbFor(r: PageRef, processed: nat, total: nat): Thumb
    requires 0 < total && processed <= total
  {
    Thumb(r, Caption(r.name, r.page), Percent(processed, total))
  }

  /** The JPEG of a page: named after its file's base name and its padded page number. */
  function EntryFor(r: PageRef): JpegEntry {
    JpegEntry(JpegName(StripPdfSuffix(r.name), r.page), r)
  }

  /** The first `count` thumbnails of a run that visits `Schedule(files)` in order. */
  function ExpectedThumbs(files: seq<SourceFile>, count: nat): (r: seq<Thumb>)
    requires count <= TotalPages(files)
    ensures |r| == count
  {
    ScheduleLength(files);
    seq(count, k requires 0 <= k < count => ThumbFor(Schedule(files)[k], k + 1, TotalPages(files)))
  }

  /** The first `count` JPEGs of such a run. */
  function ExpectedEntries(files: seq<SourceFile>, count: nat): (r: seq<JpegEntry>)
    requires count <= TotalPages(files)
    ensures |r| == count
  {
    ScheduleLength(files);
    seq(count, k requires 0 <= k < count => EntryFor(Schedule(files)[k]))
  }

  /** One more finished page extends both sequences by that page's items. */
  lemma ExpectedSnoc(files: seq<SourceFile>, count: nat)
    requires count < TotalPages(files)
    ensures count < |Schedule(files)|
    ensures ExpectedThumbs(files, count + 1) == ExpectedThumbs(files, count) + [ThumbFor(Schedule(files)[count], count + 1, TotalPages(files))]
    ensures ExpectedEntries(files, count + 1) == ExpectedEntries(files, count) + [EntryFor(Schedule(files)[count])]
  {
    ScheduleLength(files);
  }

  /** The state reflects exactly the first `processed` pages of the visiting order. */
  predicate Matches(files: seq<SourceFile>, total: nat, l: Loop) {
    && total == TotalPages(files)
    && l.processed <= total
    && l.thumbs == ExpectedThumbs(files, l.processed)
    && l.entries == ExpectedEntries(files, l.processed)
  }

  /** The inner loop of `processFiles`: pages `pageNum..numPages` of file
      `fi`, each preceded by a check of the cancel flag. */
  function ConvertPages(files: seq<SourceFile>, fi: nat, pageNum: nat, total: nat, cancel: Cancel, l: Loop): (r: Loop)
    requires fi < |files| && 1 <= pageNum <= |files[fi].pages| + 1
    requires Matches(files, total, l) && !l.stopped
    requires l.processed == PagesBefore(files, fi) + pageNum - 1
    requires cancel.NotBefore(l.processed)
    decreases |files[fi].pages| + 1 - pageNum
    ensures Matches(files, total, r)
    ensures r.stopped <==> pageNum <= |files[fi].pages| && cancel.Raised(LastCheck(files, fi))
    ensures r.stopped ==> cancel.AfterPages? && r.processed == cancel.n
    ensures !r.stopped ==> r.processed == PagesBefore(files, fi + 1)
  {
    if pageNum > |files[fi].pages| then l
    else if cancel.Raised(l.processed) then l.(stopped := true)
    else
      var f := files[fi];
      var ref := PageRef(fi, f.name, pageNum);
      var processed := l.processed + 1;
      PagesBeforeMonotone(files, fi + 1, |files|);
      ScheduleAt(files, fi, pageNum);
      var thumb := Thumb(ref, Caption(f.name, pageNum), Percent(processed, total));
      var entry := JpegEntry(JpegName(StripPdfSuffix(f.name), pageNum), ref);
      ExpectedSnoc(files, l.processed);
      ConvertPages(files, fi, pageNum + 1, total, cancel, Loop(processed, l.thumbs + [thumb], l.entries + [entry], false))
  }

  /** The outer loop of `processFiles`: files `fi..` in input order, each
      preceded by a check of the cancel flag. */
  function ConvertFiles(files: seq<SourceFile>, fi: nat, total: nat, cancel: Cancel, l: Loop): (r: Loop)
    requires fi <= |files|
    requires Matches(files, total, l) && !l.stopped
    requires l.processed == PagesBefore(files, fi)
    requires cancel.NotBefore(l.processed)
    decreases |files| - fi
    ensures Matches(files, total, r)
    ensures r.stopped <==> fi < |files| && cancel.Raised(LastCheck(files, |files| - 1))
    ensures r.stopped ==> cancel.AfterPages? && r.processed == cancel.n
    ensures !r.stopped ==> r.processed == total
  {
    if fi == |files| then l
    else
      LastCheckMonotone(files, fi, |files| - 1);
      if cancel.Raised(l.processed) then l.(stopped := true)
      else
        var next := ConvertPages(files, fi, 1, total, cancel, l);
        if next.stopped then next
        else ConvertFiles(files, fi + 1, total, cancel, next)
  }

  /** Both loops from the start of a run. */
  function RunPages(files: seq<SourceFile>, cancel: Cancel): (r: Loop)
    requires |files| > 0
    ensures Matches(files, TotalPages(files), r)
    ensures r.stopped <==> cancel.Raised(LastCheck(files, |files| - 1))
    ensures r.stopped ==> cancel.AfterPages? && r.processed == cancel.n
    ensures !r.stopped ==> r.processed == TotalPages(files)
  {
    ConvertFiles(files, 0, TotalPages(files), cancel, Loop(0, [], [], false))
  }

  /** `singlePDF`: one file with one page, decided from the pre-count. */
  predicate SinglePdf(files: seq<SourceFile>) {
    |files| == 1 && TotalPages(files) == 1
  }

  /** The download offered after a finished loop. */
  function Bundle(files: seq<SourceFile>, r: Loop): (d: Download)
    requires |files| > 0 && Matches(files, TotalPages(files), r) && r.processed == TotalPages(files)
    ensures SinglePdf(files) ==> d == SingleJpeg(ExpectedEntries(files, 1)[0])
    ensures !SinglePdf(files) ==> d == Zip(ZipName, ExpectedEntries(files, TotalPages(files)))
  {
    if SinglePdf(files) then SingleJpeg(r.entries[0]) else Zip(ZipName, r.entries)
  }

  /** `processFiles` exactly as written: after the loop nothing re-reads the
      flag, so a cancel raised while the last page renders goes unseen. */
  function ProcessFilesAsWritten(files: seq<SourceFile>, cancel: Cancel): (o: Outcome)
    ensures o.NothingFound? <==> |files| == 0
    ensures o.Canceled? <==> |files| > 0 && cancel.Raised(LastCheck(files, |files| - 1))
    ensures o.Canceled? ==> cancel.AfterPages? && cancel.n <= TotalPages(files) && o.thumbs == ExpectedThumbs(files, cancel.n)
    ensures o.Completed? ==> o.thumbs == ExpectedThumbs(files, TotalPages(files))
    ensures o.Completed? && SinglePdf(files) ==>
      o.download == SingleJpeg(JpegEntry(JpegName(StripPdfSuffix(files[0].name), 1), PageRef(0, files[0].name, 1)))
    ensures o.Completed? && !SinglePdf(files) ==>
      o.download == Zip(ZipName, ExpectedEntries(files, TotalPages(files)))
  {
    if |files| == 0 then NothingFound
    else
      var r := RunPages(files, cancel);
      if r.stopped then Canceled(r.thumbs)
      else
        SingleStartsAtFirstPage(files);
        Completed(r.thumbs, Bundle(files, r))
  }

  /** `processFiles` with the flag read once more after the loop, as the
      compressor does: a raised flag never leads to a download. */
  function ProcessFiles(files: seq<SourceFile>, cancel: Cancel): (o: Outcome)
    ensures o.NothingFound? <==> |files| == 0
    ensures o.Canceled? <==> |files| > 0 && cancel.Raised(TotalPages(files))
    ensures o.Canceled? ==> cancel.AfterPages? && o.thumbs == ExpectedThumbs(files, cancel.n)
    ensures o.Completed? ==> o.thumbs == ExpectedThumbs(files, TotalPages(files))
    ensures o.Completed? && SinglePdf(files) ==>
      o.download == SingleJpeg(JpegEntry(JpegName(StripPdfSuffix(files[0].name), 1), PageRef(0, files[0].name, 1)))
    ensures o.Completed? && !SinglePdf(files) ==>
      o.download == Zip(ZipName, ExpectedEntries(files, TotalPages(files)))
  {
    if |files| == 0 then NothingFound
    else
      var r := RunPages(files, cancel);
      if r.stopped || cancel.Raised(r.processed) then Canceled(r.thumbs)
      else
        SingleStartsAtFirstPage(files);
        Completed(r.thumbs, Bundle(files, r))
  }

  /** `singlePDF` holds exactly for one file of exactly one page. */
  lemma SinglePdfIsOnePage(files: seq<SourceFile>)
    ensures SinglePdf(files) <==> |files| == 1 && |files[0].pages| == 1
  {
    if |files| == 1 {
      assert PagesBefore(files, 1) == PagesBefore(files, 0) + |files[0].pages|;
    }
  }

  lemma SingleStartsAtFirstPage(files: seq<SourceFile>)
    ensures SinglePdf(files) ==> |Schedule(files)| == 1 && Schedule(files)[0] == PageRef(0, files[0].name, 1)
  {
    if SinglePdf(files) {
      assert PagesBefore(files, 1) == PagesBefore(files, 0) + |files[0].pages|;
      ScheduleAt(files, 0, 1);
      ScheduleLength(files);
      assert PagesBefore(files, 0) == 0;
    }
  }

  // ---------------------------------------------------------------------
  // Properties of a run.

  /** The bar after each thumbnail: within 0..100, never decreasing, and at
      100 exactly for the last page of the pre-count. */
  lemma ThumbProgress(files: seq<SourceFile>, count: nat)
    requires count <= TotalPages(files)
    ensures var t := ExpectedThumbs(files, count);
      && (forall i :: 0 <= i < count ==> t[i].percent <= 100)
      && (forall i :: 0 <= i < count ==> (t[i].percent == 100 <==> i + 1 == TotalPages(files)))
      && (forall i, j :: 0 <= i <= j < count ==> t[i].percent <= t[j].percent)
  {
    var t := ExpectedThumbs(files, count);
    var total := TotalPages(files);
    forall i | 0 <= i < count
      ensures t[i].percent <= 100 && (t[i].percent == 100 <==> i + 1 == total)
    {
      PercentBounds(i + 1, total);
    }
    forall i, j | 0 <= i <= j < count
      ensures t[i].percent <= t[j].percent
    {
      PercentMonotone(i + 1, j + 1, total);
    }
  }

  /** The JPEGs of one file get pairwise different names. */
  lemma EntriesOfAFileAreDistinct(files: seq<SourceFile>, count: nat)
    requires count <= TotalPages(files)
    ensures var e := ExpectedEntries(files, count);
      forall i, j :: 0 <= i < j < count && e[i].source.file == e[j].source.file ==> e[i].name != e[j].name
  {
    var e := ExpectedEntries(files, count);
    var s := Schedule(files);
    ScheduleOrdered(files);
    ScheduleLength(files);
    forall i, j | 0 <= i < j < count && e[i].source.file == e[j].source.file
      ensures e[i].name != e[j].name
    {
      assert Precedes(s[i], s[j]);
      assert ValidRef(files, s[i]) && ValidRef(files, s[j]);
      JpegNamesDistinct(StripPdfSuffix(s[i].name), s[i].page, s[j].page);
    }
  }

  /** One file with one page: a single JPEG named `{base}_001.jpg`, no zip. */
  lemma OnePageGivesOneJpeg(name: string, mimeType: string, page: Page)
    ensures var files := [SourceFile(name, mimeType, [page])];
      var ref := PageRef(0, name, 1);
      ProcessFilesAsWritten(files, Never)
        == Completed([Thumb(ref, name + " - p.1", 100)], SingleJpeg(JpegEntry(StripPdfSuffix(name) + "_001.jpg", ref)))
  {
    var files := [SourceFile(name, mimeType, [page])];
    var ref := PageRef(0, name, 1);
    assert files[..0] == [];
    assert TotalPages(files) == 1 by {
      assert PagesBefore(files, 1) == PagesBefore(files, 0) + |files[0].pages|;
    }
    assert Pad3(1) == "001";
    assert Decimal(1) == "1";
    ScheduleAt(files, 0, 1);
    assert Schedule(files)[0] == ref;
    assert Percent(1, 1) == 100;
    assert Caption(name, 1) == name + " - p.1";
    assert ExpectedThumbs(files, 1) == [Thumb(ref, name + " - p.1", 100)];
    var o := ProcessFilesAsWritten(files, Never);
    assert o.Completed?;
    assert o.thumbs == [Thumb(ref, name + " - p.1", 100)];
    assert o.download == SingleJpeg(JpegEntry(JpegName(StripPdfSuffix(name), 1), ref));
  }

  /** Two one-page files: a zip with one JPEG per file, in input order. */
  lemma TwoOnePageFilesGiveAZip(a: SourceFile, b: SourceFile)
    requires |a.pages| == 1 && |b.pages| == 1
    ensures var o := ProcessFilesAsWritten([a, b], Never);
      && o.Completed?
      && o.download == Zip(ZipName, [
           JpegEntry(StripPdfSuffix(a.name) + "_001.jpg", PageRef(0, a.name, 1)),
           JpegEntry(StripPdfSuffix(b.name) + "_001.jpg", PageRef(1, b.name, 1))])
  {
    var files := [a, b];
    assert files[..0] == [] && files[..1] == [a] && files[..2] == files;
    assert TotalPages(files) == 2 by {
      assert PagesBefore(files, 1) == PagesBefore(files, 0) + |a.pages|;
      assert PagesBefore(files, 2) == PagesBefore(files, 1) + |b.pages|;
    }
    assert Pad3(1) == "001";
    assert Decimal(1) == "1";
    ScheduleAt(files, 0, 1);
    ScheduleAt(files, 1, 1);
    assert PagesBefore(files, 1) == 1;
    FirstJpegName(StripPdfSuffix(a.name));
    FirstJpegName(StripPdfSuffix(b.name));
    assert ExpectedEntries(files, 2) == [
           JpegEntry(StripPdfSuffix(a.name) + "_001.jpg", PageRef(0, a.name, 1)),
           JpegEntry(StripPdfSuffix(b.name) + "_001.jpg", PageRef(1, b.name, 1))];
  }

  lemma FirstJpegName(base: string)
    ensures JpegName(base, 1) == base + "_001.jpg"
  {
  }

  /** The two versions of `processFiles` differ exactly when the flag goes up
      after the last check of the loop: the run as written then completes
      and offers its download although the user canceled. */
  lemma AsWrittenMissesLateCancel(files: seq<SourceFile>, cancel: Cancel)
    ensures ProcessFilesAsWritten(files, cancel) != ProcessFiles(files, cancel) <==>
      |files| > 0 && cancel.Raised(TotalPages(files)) && !cancel.Raised(LastCheck(files, |files| - 1))
  {
  }

  /** The smallest case: one page, cancel clicked while it renders. */
  lemma CancelDuringOnlyPage(name: string, mimeType: string, page: Page)
    ensures var files := [SourceFile(name, mimeType, [page])];
      && ProcessFilesAsWritten(files, AfterPages(1)).Completed?
      && ProcessFiles(files, AfterPages(1)).Canceled?
  {
  }

  // ---------------------------------------------------------------------
  // Entry points.

  datatype DropOutcome = DropRejected | DropStarted(run: Outcome)

  /** A drop on the drop area: nothing starts unless some dropped name ends in `.pdf`. */
  function OnDrop(dropped: seq<SourceFile>, cancel: Cancel): (d: DropOutcome)
    ensures d.DropRejected? <==> forall f :: f in dropped ==> !IsPdfName(f.name)
    ensures d.DropStarted? ==> !d.run.NothingFound?
    ensures d.DropStarted? ==> d.run == ProcessFilesAsWritten(FilterPdf(dropped), cancel)
  {
    var pdfs := FilterPdf(dropped);
    if |pdfs| == 0 then DropRejected
    else
      assert pdfs[0] in pdfs;
      DropStarted(ProcessFilesAsWritten(pdfs, cancel))
  }

  datatype FolderOutcome = FolderOutcome(warned: bool, run: Outcome)

  /** A folder selection: non-PDF files are dropped with a warning, and an
      empty remainder still reaches `processFiles`, which stops at once. */
  function OnFolder(all: seq<SourceFile>, cancel: Cancel): (r: FolderOutcome)
    ensures r.warned <==> exists f :: f in all && !IsPdfName(f.name)
    ensures r.run.NothingFound? <==> forall f :: f in all ==> !IsPdfName(f.name)
    ensures r.run == ProcessFilesAsWritten(FilterPdf(all), cancel)
  {
    var pdfs := FilterPdf(all);
    assert |pdfs| > 0 ==> pdfs[0] in pdfs;
    FolderOutcome(|pdfs| != |all|, ProcessFilesAsWritten(pdfs, cancel))
  }
}
