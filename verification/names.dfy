/** String rules shared by both tools: the `.pdf` test used to filter inputs,
    the `/\.pdf$/i` rewrites that derive output names, the decimal and
    zero-padded page numbers, and the thumbnail caption. */
module Names {

  /** ASCII lowering, the part of `toLowerCase` that can affect a `.pdf` test. */
  function LowerChar(c: char): char {
    if 'A' <= c <= 'Z' then (c as int + 32) as char else c
  }

  function Lower(s: string): string {
    seq(|s|, i requires 0 <= i < |s| => LowerChar(s[i]))
  }

  predicate EndsWith(s: string, suffix: string) {
    |suffix| <= |s| && s[|s| - |suffix|..] == suffix
  }

  /** The input filter: `name.toLowerCase().endsWith(".pdf")`. */
  predicate IsPdfName(name: string) {
    EndsWith(Lower(name), ".pdf")
  }

  /** What the regular expression `/\.pdf$/i` matches: a full stop and the
      letters p, d, f in either case, at the very end of the name. */
  predicate MatchesPdfSuffix(name: string) {
    && |name| >= 4
    && name[|name| - 4] == '.'
    && name[|name| - 3] in "pP"
    && name[|name| - 2] in "dD"
    && name[|name| - 1] in "fF"
  }

  /** The filter's lower-then-compare test and the case-insensitive regular
      expression accept exactly the same names. */
  lemma PdfTestsAgree(name: string)
    ensures IsPdfName(name) <==> MatchesPdfSuffix(name)
  {
    var low := Lower(name);
    if |name| >= 4 {
      var n := |name|;
      assert low[n - 4..] == [low[n - 4], low[n - 3], low[n - 2], low[n - 1]];
    }
  }

  /** `name.replace(/\.pdf$/i, "")`: the base name used for JPEG entries. */
  function StripPdfSuffix(name: string): (base: string)
    ensures |base| <= |name| && base == name[..|base|]
    ensures MatchesPdfSuffix(name) <==> |base| == |name| - 4
    ensures !MatchesPdfSuffix(name) <==> base == name
  {
    if MatchesPdfSuffix(name) then name[..|name| - 4] else name
  }

  /** A base name followed by any case variant of `.pdf` strips back to that base. */
  lemma StripRestoresBase(base: string, ext: string)
    requires |ext| == 4 && MatchesPdfSuffix(ext)
    ensures StripPdfSuffix(base + ext) == base
  {
  }

  /** `name.replace(/\.pdf$/i, "_compressed.pdf")`: the compressor's output name. */
  function CompressedName(name: string): (r: string)
    ensures MatchesPdfSuffix(name) ==> r == StripPdfSuffix(name) + "_compressed.pdf"
    ensures !MatchesPdfSuffix(name) ==> r == name
  {
    if MatchesPdfSuffix(name) then name[..|name| - 4] + "_compressed.pdf" else name
  }

  /** A renamed PDF is still a PDF name (now with a lower-case `.pdf`), and a
      name that did not end in `.pdf` is left alone, so the rename never turns
      a non-PDF name into a PDF one. */
  lemma CompressedNameKeepsPdfTest(name: string)
    ensures IsPdfName(CompressedName(name)) <==> IsPdfName(name)
    ensures MatchesPdfSuffix(name) ==> EndsWith(CompressedName(name), "_compressed.pdf")
  {
    PdfTestsAgree(name);
    var r := CompressedName(name);
    PdfTestsAgree(r);
    if MatchesPdfSuffix(name) {
      var b := name[..|name| - 4];
      assert r == b + "_compressed.pdf";
      assert r[|r| - 15..] == "_compressed.pdf";
    }
  }

  // ---------------------------------------------------------------------
  // Decimal page numbers: `String(n)` and `padStart(3, "0")`.

  predicate IsDigit(c: char) {
    '0' <= c <= '9'
  }

  predicate AllDigits(s: string) {
    forall i :: 0 <= i < |s| ==> IsDigit(s[i])
  }

  function DigitChar(d: nat): (c: char)
    requires d < 10
    ensures IsDigit(c) && c as int - '0' as int == d
  {
    ('0' as int + d) as char
  }

  /** `String(n)` for a natural number: its shortest decimal form. */
  function Decimal(n: nat): (s: string)
    ensures 1 <= |s| && AllDigits(s)
    ensures |s| > 1 ==> s[0] != '0'
    ensures n < 10 <==> |s| == 1
    ensures n >= 100 ==> |s| >= 3
  {
    if n < 10 then [DigitChar(n)] else Decimal(n / 10) + [DigitChar(n % 10)]
  }

  /** The number a string of decimal digits denotes. */
  function Value(s: string): nat
    requires AllDigits(s)
  {
    if |s| == 0 then 0 else Value(s[..|s| - 1]) * 10 + (s[|s| - 1] as int - '0' as int)
  }

  lemma {:induction false} ValueOfDecimal(n: nat)
    ensures Value(Decimal(n)) == n
  {
    if n >= 10 {
      var s := Decimal(n);
      assert s[..|s| - 1] == Decimal(n / 10);
      ValueOfDecimal(n / 10);
    }
  }

  function Repeat(c: char, k: nat): (r: string)
    ensures |r| == k && forall i :: 0 <= i < k ==> r[i] == c
  {
    seq(k, _ => c)
  }

  /** `s.padStart(width, fill)` with a one-character fill: left-pads to at
      least `width` characters and never truncates. */
  function PadStart(s: string, width: nat, fill: char): (r: string)
    ensures |r| == if |s| >= width then |s| else width
    ensures EndsWith(r, s)
    ensures forall i :: 0 <= i < |r| - |s| ==> r[i] == fill
  {
    if |s| >= width then s else Repeat(fill, width - |s|) + s
  }

  /** The page number as it appears in JPEG names: `String(n).padStart(3, "0")`. */
  function Pad3(n: nat): string {
    PadStart(Decimal(n), 3, '0')
  }

  lemma {:induction false} LeadingZerosKeepValue(k: nat, s: string)
    requires AllDigits(s)
    ensures AllDigits(Repeat('0', k) + s)
    ensures Value(Repeat('0', k) + s) == Value(s)
    decreases |s|
  {
    var z := Repeat('0', k);
    if |s| == 0 {
      assert z + s == z;
      ZerosHaveNoValue(k);
    } else {
      assert (z + s)[..|z + s| - 1] == z + s[..|s| - 1];
      LeadingZerosKeepValue(k, s[..|s| - 1]);
    }
  }

  lemma {:induction false} ZerosHaveNoValue(k: nat)
    ensures Value(Repeat('0', k)) == 0
  {
    if k > 0 {
      assert Repeat('0', k)[..k - 1] == Repeat('0', k - 1);
      ZerosHaveNoValue(k - 1);
    }
  }

  /** Padding keeps the page number readable: the padded string has at
      least three digits, exactly three below 1000, and denotes `n`. */
  lemma Pad3RoundTrip(n: nat)
    ensures AllDigits(Pad3(n))
    ensures |Pad3(n)| >= 3 && |Pad3(n)| >= |Decimal(n)|
    ensures n < 1000 ==> |Pad3(n)| == 3
    ensures n >= 100 ==> Pad3(n) == Decimal(n)
    ensures Value(Pad3(n)) == n
  {
    var d := Decimal(n);
    ValueOfDecimal(n);
    if |d| < 3 {
      assert Pad3(n) == Repeat('0', 3 - |d|) + d;
      LeadingZerosKeepValue(3 - |d|, d);
    }
    if n < 1000 {
      DecimalOfSmall(n);
    }
  }

  lemma DecimalOfSmall(n: nat)
    requires n < 1000
    ensures |Decimal(n)| <= 3
  {
  }

  lemma Pad3Injective(m: nat, n: nat)
    ensures Pad3(m) == Pad3(n) ==> m == n
  {
    Pad3RoundTrip(m);
    Pad3RoundTrip(n);
  }

  /** A page's JPEG name: `{base}_{NNN}.jpg`. */
  function JpegName(base: string, page: nat): string {
    base + "_" + Pad3(page) + ".jpg"
  }

  /** Within one file the JPEG names tell the pages apart: the base, the
      padded number and the extension can be read back from the name. */
  lemma JpegNameReadsBack(base: string, page: nat)
    ensures var name := JpegName(base, page);
      && name[..|base|] == base
      && name[|base|] == '_'
      && EndsWith(name, ".jpg")
      && AllDigits(name[|base| + 1..|name| - 4])
      && Value(name[|base| + 1..|name| - 4]) == page
  {
    var name := JpegName(base, page);
    Pad3RoundTrip(page);
    assert name[|base| + 1..|name| - 4] == Pad3(page);
  }

  lemma JpegNamesDistinct(base: string, p: nat, q: nat)
    ensures p != q ==> JpegName(base, p) != JpegName(base, q)
  {
    JpegNameReadsBack(base, p);
    JpegNameReadsBack(base, q);
  }

  /** The thumbnail caption `{fileName} - p.{page}`. */
  function Caption(fileName: string, page: nat): string {
    fileName + " - p." + Decimal(page)
  }

  /** The caption starts with the file name and ends with the unpadded page
      number, which reads back as the page. */
  lemma CaptionReadsBack(fileName: string, page: nat)
    ensures var c := Caption(fileName, page);
      && c[..|fileName|] == fileName
      && c[|fileName|..|fileName| + 5] == " - p."
      && AllDigits(c[|fileName| + 5..])
      && Value(c[|fileName| + 5..]) == page
  {
    var c := Caption(fileName, page);
    assert c[|fileName| + 5..] == Decimal(page);
    ValueOfDecimal(page);
  }
}
