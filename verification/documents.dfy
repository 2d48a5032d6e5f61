/** Input files as the two tools see them once the PDF renderer is
    abstracted: a name, a MIME type and a sequence of pages, each with its
    scale-1 size in PDF points. Also the page pre-count and the order in
    which the page loops visit pages. */
module Documents {

  datatype Page = Page(width: real, height: real)

  datatype SourceFile = SourceFile(name: string, mimeType: string, pages: seq<Page>)

  /** Page `page` (1-based) of the file at index `file` of the input list,
      together with that file's name. */
  datatype PageRef = PageRef(file: nat, name: string, page: nat)

  /** Pages in the files before index `j`, summed in input order. */
  function PagesBefore(files: seq<SourceFile>, j: nat): nat
    requires j <= |files|
  {
    if j == 0 then 0 else PagesBefore(files, j - 1) + |files[j - 1].pages|
  }

  /** The pre-count: the page counts of all files summed. */
  function TotalPages(files: seq<SourceFile>): nat {
    PagesBefore(files, |files|)
  }

  /** The count before `j` depends only on the files before `j`. */
  lemma {:induction false} PagesBeforePrefix(files: seq<SourceFile>, m: nat, j: nat)
    requires j <= m <= |files|
    ensures PagesBefore(files[..m], j) == PagesBefore(files, j)
  {
    if j > 0 {
      PagesBeforePrefix(files, m, j - 1);
    }
  }

  /** Dropping the last file drops its pages from the pre-count. */
  lemma TotalPagesInit(files: seq<SourceFile>)
    requires |files| > 0
    ensures TotalPages(files) == TotalPages(files[..|files| - 1]) + |files[|files| - 1].pages|
  {
    PagesBeforePrefix(files, |files| - 1, |files| - 1);
  }

  lemma {:induction false} PagesBeforeMonotone(files: seq<SourceFile>, i: nat, j: nat)
    requires i <= j <= |files|
    ensures PagesBefore(files, i) <= PagesBefore(files, j)
    decreases j - i
  {
    if i < j {
      PagesBeforeMonotone(files, i, j - 1);
    }
  }

  /** Pages 1 to `count` of one file, ascending. */
  function PageRange(file: nat, name: string, count: nat): (r: seq<PageRef>)
    ensures |r| == count
  {
    seq(count, k requires 0 <= k < count => PageRef(file, name, k + 1))
  }

  /** The visiting order: files in input order, pages of each file from 1 up. */
  function Schedule(files: seq<SourceFile>): seq<PageRef> {
    if |files| == 0 then []
    else
      var last := |files| - 1;
      Schedule(files[..last]) + PageRange(last, files[last].name, |files[last].pages|)
  }

  /** Every page is visited once: the pre-count equals the number of pages
      the loop renders when nothing stops it. */
  lemma {:induction false} ScheduleLength(files: seq<SourceFile>)
    ensures |Schedule(files)| == TotalPages(files)
  {
    if |files| > 0 {
      ScheduleLength(files[..|files| - 1]);
      TotalPagesInit(files);
    }
  }

  /** Every visited page exists: it names a file of the input, with that
      file's name, and one of its pages. */
  predicate ValidRef(files: seq<SourceFile>, r: PageRef) {
    && r.file < |files|
    && r.name == files[r.file].name
    && 1 <= r.page <= |files[r.file].pages|
  }

  /** `a` is visited before `b`: an earlier file, or an earlier page of the same file. */
  predicate Precedes(a: PageRef, b: PageRef) {
    a.file < b.file || (a.file == b.file && a.page < b.page)
  }

  /** Files in input order, pages in ascending order, each visit a real page. */
  lemma {:induction false} ScheduleOrdered(files: seq<SourceFile>)
    ensures forall k :: 0 <= k < |Schedule(files)| ==> ValidRef(files, Schedule(files)[k])
    ensures forall a, b :: 0 <= a < b < |Schedule(files)| ==> Precedes(Schedule(files)[a], Schedule(files)[b])
  {
    if |files| > 0 {
      var last := |files| - 1;
      var init := files[..last];
      ScheduleOrdered(init);
      var s0 := Schedule(init);
      var rng := PageRange(last, files[last].name, |files[last].pages|);
      var s := Schedule(files);
      assert s == s0 + rng;
      forall k | 0 <= k < |s|
        ensures ValidRef(files, s[k])
      {
        if k < |s0| {
          assert ValidRef(init, s0[k]);
        }
      }
      forall a, b | 0 <= a < b < |s|
        ensures Precedes(s[a], s[b])
      {
        if b < |s0| {
          assert Precedes(s0[a], s0[b]);
        } else if a < |s0| {
          assert ValidRef(init, s0[a]);
        }
      }
    }
  }

  /** The visits to the first `j` files come first. */
  lemma {:induction false} SchedulePrefix(files: seq<SourceFile>, j: nat)
    requires j <= |files|
    ensures PagesBefore(files, j) <= |Schedule(files)|
    ensures Schedule(files[..j]) == Schedule(files)[..PagesBefore(files, j)]
    decreases |files| - j
  {
    ScheduleLength(files);
    ScheduleLength(files[..j]);
    PagesBeforePrefix(files, j, j);
    if j == |files| {
      assert files[..j] == files;
    } else {
      var last := |files| - 1;
      var init := files[..last];
      assert init[..j] == files[..j];
      SchedulePrefix(init, j);
      ScheduleLength(init);
      PagesBeforePrefix(files, last, j);
    }
  }

  /** Where page `p` of file `j` sits in the visiting order. */
  lemma ScheduleAt(files: seq<SourceFile>, j: nat, p: nat)
    requires j < |files| && 1 <= p <= |files[j].pages|
    ensures PagesBefore(files, j) + p - 1 < |Schedule(files)|
    ensures Schedule(files)[PagesBefore(files, j) + p - 1] == PageRef(j, files[j].name, p)
  {
    SchedulePrefix(files, j + 1);
    var pre := files[..j + 1];
    assert pre[..j] == files[..j] && pre[j] == files[j];
    var s0 := Schedule(files[..j]);
    var rng := PageRange(j, files[j].name, |files[j].pages|);
    ScheduleLength(files[..j]);
    PagesBeforePrefix(files, j, j);
    assert |s0| == PagesBefore(files, j);
    assert Schedule(pre) == s0 + rng;
    var i := PagesBefore(files, j) + p - 1;
    assert Schedule(pre)[i] == rng[p - 1];
  }

  /** The number of finished pages at the last cancel check made for file
      `j`: the check before its last page, or the check before the file
      itself when it has no pages. */
  function LastCheck(files: seq<SourceFile>, j: nat): nat
    requires j < |files|
  {
    if |files[j].pages| == 0 then PagesBefore(files, j)
    else PagesBefore(files, j) + |files[j].pages| - 1
  }

  /** Checks happen in order: every check for file `i` comes no later than
      the last check for a later file `j`. */
  lemma LastCheckMonotone(files: seq<SourceFile>, i: nat, j: nat)
    requires i <= j < |files|
    ensures PagesBefore(files, i) <= LastCheck(files, i) <= LastCheck(files, j)
    ensures i < j ==> LastCheck(files, i) <= PagesBefore(files, j)
  {
    if i < j {
      PagesBeforeMonotone(files, i + 1, j);
    }
  }

  // ---------------------------------------------------------------------
  // In-order filtering (`Array.prototype.filter` over the input list).

  /** The files that satisfy `keep`, in input order and with every copy. */
  function Keep(files: seq<SourceFile>, keep: SourceFile -> bool): seq<SourceFile> {
    if |files| == 0 then []
    else Keep(files[..|files| - 1], keep) + KeepIf(files[|files| - 1], keep)
  }

  function KeepIf(f: SourceFile, keep: SourceFile -> bool): seq<SourceFile> {
    if keep(f) then [f] else []
  }

  /** The filter keeps exactly the files that pass, never grows the list,
      and returns the whole list exactly when every file passes. */
  lemma {:induction false} KeepFacts(files: seq<SourceFile>, keep: SourceFile -> bool)
    ensures var r := Keep(files, keep);
      && (forall f :: f in r <==> f in files && keep(f))
      && |r| <= |files|
      && (|r| == |files| <==> r == files)
      && (r == files <==> forall f :: f in files ==> keep(f))
  {
    if |files| > 0 {
      var init, last := files[..|files| - 1], files[|files| - 1];
      assert files == init + [last];
      KeepFacts(init, keep);
      if !keep(last) {
        assert Keep(files, keep) != files by {
          assert |Keep(files, keep)| < |files|;
        }
      }
    }
  }

  lemma KeepSnoc(s: seq<SourceFile>, x: SourceFile, keep: SourceFile -> bool)
    ensures Keep(s + [x], keep) == Keep(s, keep) + KeepIf(x, keep)
  {
    var sx := s + [x];
    assert sx[..|sx| - 1] == s;
  }

  /** The filter keeps the input order: it distributes over concatenation. */
  lemma {:induction false} KeepDistributes(a: seq<SourceFile>, b: seq<SourceFile>, keep: SourceFile -> bool)
    ensures Keep(a + b, keep) == Keep(a, keep) + Keep(b, keep)
    decreases |b|
  {
    if |b| == 0 {
      assert a + b == a;
    } else {
      var b0, x := b[..|b| - 1], b[|b| - 1];
      assert b == b0 + [x];
      calc {
        Keep(a + b, keep);
        { assert a + b == (a + b0) + [x]; }
        Keep((a + b0) + [x], keep);
        { KeepSnoc(a + b0, x, keep); }
        Keep(a + b0, keep) + KeepIf(x, keep);
        { KeepDistributes(a, b0, keep); }
        Keep(a, keep) + Keep(b0, keep) + KeepIf(x, keep);
        { KeepSnoc(b0, x, keep); }
        Keep(a, keep) + Keep(b, keep);
      }
    }
  }
}
