/**
 * Bill-number formatting of the scrapers' drivers: `f"{n:04d}"` in URLs
 * and file names, and the fiscal-note folder taken from the last digit of
 * the padded number.
 */
module BillNumbers {

  predicate IsDigit(c: char) {
    '0' <= c <= '9'
  }

  predicate AllDigits(s: string) {
    forall i :: 0 <= i < |s| ==> IsDigit(s[i])
  }

  function DigitChar(d: nat): (c: char)
    requires d < 10
    ensures IsDigit(c)
  {
    (48 + d) as char
  }

  function DigitValue(c: char): (d: nat)
    requires IsDigit(c)
    ensures d < 10
  {
    c as int - 48
  }

  /** `str(n)` for a natural number. */
  function Decimal(n: nat): (s: string)
    ensures |s| >= 1 && AllDigits(s)
  {
    if n < 10 then [DigitChar(n)] else Decimal(n / 10) + [DigitChar(n % 10)]
  }

  function Zeros(k: nat): (s: string)
    ensures |s| == k && AllDigits(s)
    ensures forall i :: 0 <= i < k ==> s[i] == '0'
  {
    if k == 0 then "" else Zeros(k - 1) + "0"
  }

  /** `f"{n:04d}"`: the decimal digits, left-padded with zeros to at least four. */
  function Pad4(n: nat): (s: string)
    ensures |s| >= 4 && AllDigits(s)
  {
    var d := Decimal(n);
    if |d| >= 4 then d else Zeros(4 - |d|) + d
  }

  /** `int(s)` for a string of digits. */
  function ParseDecimal(s: string): nat
    requires AllDigits(s)
  {
    if s == [] then 0 else ParseDecimal(s[..|s| - 1]) * 10 + DigitValue(s[|s| - 1])
  }

  // ---------------------------------------------------------------------
  // Padding is reversible and has four digits below 10000.

  lemma {:induction false} DecimalRoundTrip(n: nat)
    ensures ParseDecimal(Decimal(n)) == n
  {
    if n >= 10 {
      DecimalRoundTrip(n / 10);
      var s := Decimal(n);
      assert s[..|s| - 1] == Decimal(n / 10);
    }
  }

  lemma {:induction false} LeadingZeros(k: nat, s: string)
    requires AllDigits(s)
    ensures AllDigits(Zeros(k) + s)
    ensures ParseDecimal(Zeros(k) + s) == ParseDecimal(s)
  {
    if s == [] {
      assert Zeros(k) + s == Zeros(k);
      ZerosParse(k);
    } else {
      var p := s[..|s| - 1];
      LeadingZeros(k, p);
      assert (Zeros(k) + s)[..|Zeros(k) + s| - 1] == Zeros(k) + p;
    }
  }

  lemma {:induction false} ZerosParse(k: nat)
    ensures ParseDecimal(Zeros(k)) == 0
  {
    if k > 0 {
      ZerosParse(k - 1);
      assert Zeros(k)[..k - 1] == Zeros(k - 1);
    }
  }

  /** `int(f"{n:04d}") == n`: no two bill numbers share a padded form. */
  lemma Pad4RoundTrip(n: nat)
    ensures ParseDecimal(Pad4(n)) == n
  {
    DecimalRoundTrip(n);
    var d := Decimal(n);
    if |d| < 4 {
      LeadingZeros(4 - |d|, d);
    }
  }

  lemma Pad4Injective(m: nat, n: nat)
    requires Pad4(m) == Pad4(n)
    ensures m == n
  {
    Pad4RoundTrip(m);
    Pad4RoundTrip(n);
  }

  lemma {:induction false} DecimalLength(n: nat, k: nat)
    requires k >= 1
    requires n < Pow10(k)
    ensures |Decimal(n)| <= k
  {
    if n >= 10 {
      DecimalLength(n / 10, k - 1);
    }
  }

  function Pow10(k: nat): (p: nat)
    ensures p >= 1
  {
    if k == 0 then 1 else 10 * Pow10(k - 1)
  }

  /** Bill numbers below 10000 are written with exactly four digits. */
  lemma Pad4Length(n: nat)
    requires n < 10000
    ensures |Pad4(n)| == 4
  {
    assert Pow10(4) == 10000;
    DecimalLength(n, 4);
  }

  /** The last character of the padded number is the last decimal digit. */
  lemma Pad4Last(n: nat)
    ensures Pad4(n)[|Pad4(n)| - 1] == DigitChar(n % 10)
  {
  }

  // ---------------------------------------------------------------------
  // The fiscal-note folder.

  /**
   * `f"bil_{int(padded[-1]):04d}"`: the folder is `bil_000d` with `d` the
   * last decimal digit of the bill number.
   */
  function FiscalNoteFolder(n: nat): (r: string)
    ensures r == "bil_000" + [DigitChar(n % 10)]
  {
    var padded := Pad4(n);
    Pad4Last(n);
    var d := n % 10;
    assert DigitValue(DigitChar(d)) == d;
    assert Decimal(d) == [DigitChar(d)];
    assert Pad4(d) == "000" + [DigitChar(d)];
    "bil_" + Pad4(DigitValue(padded[|padded| - 1]))
  }

  // ---------------------------------------------------------------------
  // The padded number can be read back out of a name.

  /** The longest prefix of `s` made of digits. */
  function LeadingDigits(s: string): (r: string)
    ensures |r| <= |s| && r == s[..|r|] && AllDigits(r)
    ensures |r| < |s| ==> !IsDigit(s[|r|])
  {
    if s == [] || !IsDigit(s[0]) then "" else [s[0]] + LeadingDigits(s[1..])
  }

  lemma {:induction false} LeadingDigitsOf(d: string, q: string)
    requires AllDigits(d)
    requires q == [] || !IsDigit(q[0])
    ensures LeadingDigits(d + q) == d
  {
    if d == [] {
      assert d + q == q;
    } else {
      LeadingDigitsOf(d[1..], q);
      assert (d + q)[1..] == d[1..] + q;
      assert [d[0]] + d[1..] == d;
    }
  }

  /** The padded number followed by a non-digit reads back as the number. */
  lemma PaddedReadsBack(n: nat, q: string)
    ensures (q == [] || !IsDigit(q[0])) ==> LeadingDigits(Pad4(n) + q) == Pad4(n)
    ensures (q == [] || !IsDigit(q[0])) ==> ParseDecimal(LeadingDigits(Pad4(n) + q)) == n
  {
    if q == [] || !IsDigit(q[0]) {
      LeadingDigitsOf(Pad4(n), q);
      Pad4RoundTrip(n);
    }
  }

  /** The three parts of `p + d + q` can be cut back out. */
  lemma ThreeParts(p: string, d: string, q: string)
    ensures |p| <= |p + d + q| && (p + d + q)[..|p|] == p
    ensures (p + d + q)[|p|..] == d + q
    ensures EndsWith(p + d + q, q)
  {
    assert (p + d + q)[|p + d|..] == q;
  }

  /**
   * `r` starts with `prefix`, and the digits right after it are the
   * padded `n`, which reads back as `n`.
   */
  predicate ReadsBack(r: string, prefix: string, n: nat) {
    && |prefix| <= |r| && r[..|prefix|] == prefix
    && LeadingDigits(r[|prefix|..]) == Pad4(n)
    && ParseDecimal(LeadingDigits(r[|prefix|..])) == n
  }

  predicate EndsWith(r: string, suffix: string) {
    |suffix| <= |r| && r[|r| - |suffix|..] == suffix
  }

  // ---------------------------------------------------------------------
  // URLs and file names. The year is the module-level `bill_year`, the
  // folder `bill_folder`.

  /**
   * `f"{prefix}{n:04d}{suffix}"`: when the suffix does not start with a
   * digit, the bill number can be read back after the prefix.
   */
  function WithNumber(prefix: string, n: nat, suffix: string): (r: string)
    ensures |prefix| <= |r| && r[..|prefix|] == prefix
    ensures EndsWith(r, suffix)
    ensures |r| == |prefix| + |Pad4(n)| + |suffix|
    ensures (suffix == [] || !IsDigit(suffix[0])) ==> ReadsBack(r, prefix, n)
  {
    var d := Pad4(n);
    PaddedReadsBack(n, suffix);
    ThreeParts(prefix, d, suffix);
    prefix + d + suffix
  }

  function DetailsPrefix(): string {
    "https://mgaleg.maryland.gov/mgawebsite/Legislation/Details/hb"
  }

  function FilePrefix(folder: string): string {
    folder + "/bill_"
  }

  function BillPdfPrefix(year: nat): string {
    "https://mgaleg.maryland.gov/" + Decimal(year) + "RS/bills/hb/hb"
  }

  function FiscalNotePrefix(year: nat, n: nat): string {
    "https://mgaleg.maryland.gov/" + Decimal(year) + "RS/fnotes/" + FiscalNoteFolder(n) + "/hb"
  }

  /** `?ys={bill_year}RS`: the session query of the site's pages. */
  function SessionSuffix(year: nat): string {
    "?ys=" + Decimal(year) + "RS"
  }

  function WitnessPrefix(): string {
    "https://mgaleg.maryland.gov/mgawebsite/Legislation/WitnessSignup/HB"
  }

  /** The summary page of bill `n` in session `year`. */
  function DetailsUrl(year: nat, n: nat): (r: string)
    ensures ReadsBack(r, DetailsPrefix(), n) && EndsWith(r, SessionSuffix(year))
    ensures |r| == |DetailsPrefix()| + |Pad4(n)| + |SessionSuffix(year)|
  {
    WithNumber(DetailsPrefix(), n, SessionSuffix(year))
  }

  function SummaryFile(folder: string, n: nat): (r: string)
    ensures ReadsBack(r, FilePrefix(folder), n) && EndsWith(r, "_summary.csv")
    ensures |r| == |FilePrefix(folder)| + |Pad4(n)| + |"_summary.csv"|
  {
    WithNumber(FilePrefix(folder), n, "_summary.csv")
  }

  function BillPdfUrl(year: nat, n: nat): (r: string)
    ensures ReadsBack(r, BillPdfPrefix(year), n) && EndsWith(r, "F.pdf")
    ensures |r| == |BillPdfPrefix(year)| + |Pad4(n)| + |"F.pdf"|
  {
    WithNumber(BillPdfPrefix(year), n, "F.pdf")
  }

  function BillPdfFile(folder: string, n: nat): (r: string)
    ensures ReadsBack(r, FilePrefix(folder), n) && EndsWith(r, ".pdf")
    ensures |r| == |FilePrefix(folder)| + |Pad4(n)| + |".pdf"|
  {
    WithNumber(FilePrefix(folder), n, ".pdf")
  }

  /** The fiscal note sits in the folder of the last digit, named by the whole number. */
  function FiscalNoteUrl(year: nat, n: nat): (r: string)
    ensures ReadsBack(r, FiscalNotePrefix(year, n), n) && EndsWith(r, ".pdf")
    ensures |r| == |FiscalNotePrefix(year, n)| + |Pad4(n)| + |".pdf"|
  {
    WithNumber(FiscalNotePrefix(year, n), n, ".pdf")
  }

  function FiscalNoteFile(folder: string, n: nat): (r: string)
    ensures ReadsBack(r, FilePrefix(folder), n) && EndsWith(r, "_fiscal_note.pdf")
    ensures |r| == |FilePrefix(folder)| + |Pad4(n)| + |"_fiscal_note.pdf"|
  {
    WithNumber(FilePrefix(folder), n, "_fiscal_note.pdf")
  }

  /** The witness-list URL of the line the overwrite replaced. */
  function WitnessUrlForBill(year: nat, n: nat): (r: string)
    ensures ReadsBack(r, WitnessPrefix(), n) && EndsWith(r, SessionSuffix(year))
    ensures |r| == |WitnessPrefix()| + |Pad4(n)| + |SessionSuffix(year)|
  {
    WithNumber(WitnessPrefix(), n, SessionSuffix(year))
  }

  /** The witness-list URL as written: the bill number is overwritten with `HB0001`. */
  function WitnessUrl(year: nat, n: nat): (r: string)
    ensures r == WitnessUrlForBill(year, 1)
  {
    assert Decimal(1) == "1";
    assert Pad4(1) == "0001";
    WitnessPrefix() + "0001" + SessionSuffix(year)
  }

  function WitnessFile(folder: string, n: nat): (r: string)
    ensures ReadsBack(r, FilePrefix(folder), n) && EndsWith(r, "_witness_list.csv")
    ensures |r| == |FilePrefix(folder)| + |Pad4(n)| + |"_witness_list.csv"|
  {
    WithNumber(FilePrefix(folder), n, "_witness_list.csv")
  }

  /** The three clauses of the name functions pin the whole name down. */
  lemma NameIsParts(r: string, prefix: string, n: nat, suffix: string)
    requires ReadsBack(r, prefix, n) && EndsWith(r, suffix)
    requires |r| == |prefix| + |Pad4(n)| + |suffix|
    ensures r == prefix + Pad4(n) + suffix
  {
    var d := r[|prefix|..][..|Pad4(n)|];
    assert d == Pad4(n);
    assert r == r[..|prefix|] + r[|prefix|..|prefix| + |Pad4(n)|] + r[|r| - |suffix|..];
  }

  /** Two names with the same prefix that read back to two numbers differ. */
  lemma ReadsBackDistinct(r: string, t: string, prefix: string, m: nat, n: nat)
    requires ReadsBack(r, prefix, m) && ReadsBack(t, prefix, n)
    requires m != n
    ensures r != t
  {
  }

  /** Distinct bills get distinct summary pages and summary files. */
  lemma SummaryNamesDistinct(year: nat, folder: string, m: nat, n: nat)
    requires m != n
    ensures DetailsUrl(year, m) != DetailsUrl(year, n)
    ensures SummaryFile(folder, m) != SummaryFile(folder, n)
  {
    ReadsBackDistinct(DetailsUrl(year, m), DetailsUrl(year, n), DetailsPrefix(), m, n);
    ReadsBackDistinct(SummaryFile(folder, m), SummaryFile(folder, n), FilePrefix(folder), m, n);
  }

  /** Distinct bills get distinct PDF file names. */
  lemma PdfNamesDistinct(folder: string, m: nat, n: nat)
    requires m != n
    ensures BillPdfFile(folder, m) != BillPdfFile(folder, n)
    ensures FiscalNoteFile(folder, m) != FiscalNoteFile(folder, n)
  {
    ReadsBackDistinct(BillPdfFile(folder, m), BillPdfFile(folder, n), FilePrefix(folder), m, n);
    ReadsBackDistinct(FiscalNoteFile(folder, m), FiscalNoteFile(folder, n), FilePrefix(folder), m, n);
  }

  /**
   * As written, every bill fetches the witness page of HB0001 while
   * writing it under its own file name.
   */
  lemma WitnessUrlIgnoresBill(year: nat, folder: string, m: nat, n: nat)
    requires m != n
    ensures WitnessUrl(year, m) == WitnessUrl(year, n)
    ensures WitnessFile(folder, m) != WitnessFile(folder, n)
  {
    ReadsBackDistinct(WitnessFile(folder, m), WitnessFile(folder, n), FilePrefix(folder), m, n);
  }

  /** The per-bill witness URL names a different page for every bill. */
  lemma WitnessUrlForBillDistinct(year: nat, m: nat, n: nat)
    requires m != n
    ensures WitnessUrlForBill(year, m) != WitnessUrlForBill(year, n)
  {
    ReadsBackDistinct(WitnessUrlForBill(year, m), WitnessUrlForBill(year, n), WitnessPrefix(), m, n);
  }
}
