# Maryland bill-page field extraction, in Dafny

A model of the field-extraction and normalisation logic of a small scraper
for Maryland General Assembly house-bill pages. The parsed page is an
immutable tree of element nodes (`Dom.Node`: tag, classes, optional id,
children, and an abstract `text` standing for `get_text(strip=True)`).
On it the model defines:

- the top-box extractor (`TopBox`): a pending-label state machine over the
  direct `dt`/`dd` children of `dl.row top-box`, proved equal to a
  reference definition (the adjacent `dt`/`dd` pairs with a non-empty label,
  assigned in order into a dict);
- the details-tab extractor (`DetailsTab`): the `Synopsis` and `Committees`
  rows of `div.row details-tab-info`, `Committees` being a list of link
  texts or the bare string;
- the summary writer (`BillSummary`, `SponsorCleanup`): the Committees join
  with `"; "`, the four sponsor rewrites with Python `re.sub` semantics
  (leftmost, non-overlapping, ordered alternation, `\b` on the original
  string) and `rstrip(" ")`, and the rows written (header, then one row per
  field in dict order);
- the older `dl` table scraper (`DlTable`): positional `zip` pairing of all
  `dt` and `dd` descendants, with the `Sponsored by` and `Analysis` cases;
- the witness-list scraper (`WitnessList`): the header, then the first three
  cells of every row after the first that has at least three cells;
- record assembly (`BillRecord`): the fixed five-field record with `''`
  defaults, fed through the writer;
- bill-number formatting (`BillNumbers`): `{n:04d}` padding, the
  fiscal-note folder, URLs and file names.

Python dicts are ordered lists of entries (`PyDict`): assigning an existing
key replaces its value in place, a new key is appended. Methods follow the
loops of the source and are proved equal to the functions that specify
them; the properties are lemmas about those functions.

The model follows the code as written; note in particular:

- the writer (extract_bill_info.py:52-53) leaves an absent `Committees`
  absent, with no empty string put in, and emits the rows in the dict's
  own order, whatever it is;
- the comma rewrite (extract_bill_info.py:62) only fires on `Delegate,` and
  `Delegates,`, so `DelegateSmith,DelegateJones` comes out as
  `Delegate Smith,Delegate Jones`, with no blank after the comma
  (`SponsorCleanupExamples.GluedNamesExample`);
- the sponsor clean-up is not idempotent
  (`SponsorCleanupExamples.CleanupNotIdempotent`);
- the plural alternative of the first rewrite never matches, so
  `DelegatesSmith` becomes `Delegate sSmith`
  (`SponsorCleanup.PluralTitleNeverMatches`,
  `SponsorCleanupExamples.PluralTitleExample`).

## Model

| member | source | states |
|---|---|---|
| TopBox.AdjacentPairs | extract_bill_info.py:15-20 | The reference pairing: no pair has an empty label, and there are no more pairs than tags |
| TopBox.ExtractTopBox | extract_bill_info.py:8-21 | The pending-label loop returns exactly the dict built from the adjacent (dt, dd) pairs with a non-empty label; no top box gives the empty dict |
| TopBox.AdjacentPairsMembers | extract_bill_info.py:15-20 | A (label, value) pair is produced if and only if some `dt` with non-empty text is directly followed by a `dd` with that value |
| TopBox.TopBoxEntries | extract_bill_info.py:15-20 | Every entry is the text of a direct `dt` child and of the `dd` right after it, no key is empty, and there are no more entries than `dd` children |
| TopBox.AdjacentPairsCount | extract_bill_info.py:15-20 | There are no more pairs than `dd` tags |
| TopBox.TopBoxGet | extract_bill_info.py:19 | Looking a label up gives the value of its last pair |
| TopBox.PendingLabelCases | extract_bill_info.py:16-20 | Of two labels in a row the later one is used, an empty label pairs with nothing, a value without a pending label is dropped |
| DetailsTab.ExtractDetailsTab | extract_bill_info.py:23-42 | The row loop (with its inner link loop) returns the dict of the rows' assignments in document order; no details tab gives the empty dict |
| DetailsTab.CommitteesValue | extract_bill_info.py:38-41 | Committees is a list exactly when the value has links, then the link texts in document order; otherwise the value's text |
| DetailsTab.RowEntry | extract_bill_info.py:30-41 | A row assigns something exactly when it has at least two direct `div` children and its label is `Synopsis` or `Committees`; the key is the label, the value the second cell's text for Synopsis and the Committees value otherwise |
| DetailsTab.DetailsGet | extract_bill_info.py:29-41 | Looking a key up in the details dict gives the value of the last row that assigned it |
| DetailsTab.DetailsFromRows | extract_bill_info.py:29-41 | Every entry of the result was assigned by one of the rows |
| DetailsTab.DetailsKeys | extract_bill_info.py:34-36 | The only keys are `Synopsis` and `Committees` |
| DetailsTab.LaterRowWins | extract_bill_info.py:36-41 | A later `Committees` row overwrites the value of earlier ones |
| DetailsTab.ShortRowSkipped | extract_bill_info.py:30-31 | A row with fewer than two direct `div` children changes nothing |
| BillSummary.NormalizeRecord | extract_bill_info.py:50-65 | The in-place updates of the copied dict give the normalised record, or the `TypeError` of a list-valued sponsor |
| BillSummary.WriteBillSummary | extract_bill_info.py:45-71 | Fails exactly when normalisation fails; otherwise the rows are the header followed by the normalised entries in dict order |
| BillSummary.JoinCommitteesKeys | extract_bill_info.py:52-53 | The join keeps the keys and every field other than `Committees` |
| BillSummary.NormalizeFails | extract_bill_info.py:56-60 | The writer raises exactly when `Sponsored by` holds a non-empty list |
| BillSummary.NormalizeKeepsFields | extract_bill_info.py:50-65 | Same keys in the same order; every field other than `Committees` and `Sponsored by` keeps its value |
| BillSummary.NormalizeCommittees | extract_bill_info.py:52-53 | A list-valued `Committees` becomes its items joined by `"; "` in order; any other value is unchanged |
| BillSummary.NormalizeSponsor | extract_bill_info.py:56-65 | An empty sponsor is left alone; a non-empty one is replaced by its clean-up, which ends with no double blank, no trailing blank, the same non-blank characters in order and the same first character |
| BillSummary.NormalizeAllText | extract_bill_info.py:50-65 | When every field but `Committees` is a string, normalisation succeeds and every written value is a string |
| BillSummary.CommitteesRecoverable | extract_bill_info.py:52-53 | The joined Committees string splits back into the original names when no name contains `;` |
| Strings.Join | extract_bill_info.py:53 | Joining no items gives the empty string, joining one item gives that item |
| Strings.JoinRoundTrip | extract_bill_info.py:53 | Splitting a `"; "`-join on `;` and dropping the separator's blank gives the items back |
| SponsorCleanup.MatchLength | extract_bill_info.py:60-62 | A match starts at a `D` and fits in the string; a match of the first rewrite is followed by an ASCII letter, one of the comma rewrite ends in the comma |
| SponsorCleanup.InsertBlankFrom | extract_bill_info.py:60-62 | Inserting blanks never shortens the rest of the string |
| SponsorCleanup.CollapseFrom | extract_bill_info.py:64 | Collapsing blank runs never lengthens the rest of the string |
| SponsorCleanup.Cleanup | extract_bill_info.py:60-65 | The cleaned-up sponsor has no two adjacent blanks and no trailing blank |
| SponsorCleanup.RStrip | extract_bill_info.py:65 | The result is a prefix, everything cut off is a blank, and it does not end in a blank |
| SponsorCleanup.InsertBlankKeepsNonBlank | extract_bill_info.py:60-62 | Each of the two inserting rewrites keeps the non-blank characters in order |
| SponsorCleanup.CollapseKeepsNonBlank | extract_bill_info.py:64 | Collapsing blank runs keeps the non-blank characters in order |
| SponsorCleanup.CollapseNoDoubleBlank | extract_bill_info.py:64 | After collapsing, no two blanks are adjacent |
| SponsorCleanup.RStripKeepsNonBlank | extract_bill_info.py:65 | Stripping trailing blanks keeps the non-blank characters |
| SponsorCleanup.InsertBlankFirst | extract_bill_info.py:60-62 | The inserting rewrites keep the first character |
| SponsorCleanup.CollapseFirst | extract_bill_info.py:64 | The collapse keeps the first character |
| SponsorCleanup.CleanupSpec | extract_bill_info.py:60-65 | The whole clean-up leaves no double blank and no trailing blank, keeps the non-blank characters in order and the first character, and is empty exactly for an all-blank value |
| SponsorCleanup.PluralTitleNeverMatches | extract_bill_info.py:60 | The `Delegates` alternative of the first rewrite never matches |
| SponsorCleanupExamples.CopiedSpan | extract_bill_info.py:60-62 | A stretch where no match starts is copied unchanged |
| SponsorCleanupExamples.Settled | extract_bill_info.py:62-65 | A value with no comma match, no double blank and no trailing blank is unchanged by the last three steps |
| SponsorCleanupExamples.GluedFirstRewrite | extract_bill_info.py:60 | `DelegateX,DelegateY` gets a blank after each title and none after the comma |
| SponsorCleanupExamples.SpacedNamesUnchanged | extract_bill_info.py:62-65 | `Delegate X,Delegate Y` passes the last three steps unchanged |
| SponsorCleanupExamples.GluedNamesExample | extract_bill_info.py:60-65 | The clean-up turns `DelegateX,DelegateY` into `Delegate X,Delegate Y` |
| SponsorCleanupExamples.PluralFirstRewrite | extract_bill_info.py:60 | `DelegatesX` gets its blank after `Delegate` |
| SponsorCleanupExamples.CommaRewrite | extract_bill_info.py:62 | `Delegate,X` gets a blank after the comma, for every plain name `X` |
| SponsorCleanupExamples.PluralTitleExample | extract_bill_info.py:60-65 | The clean-up turns `DelegatesX` into `Delegate sX` |
| SponsorCleanupExamples.DoubledFirstRewrite | extract_bill_info.py:60 | In `DelegateDelegateX` only the first title is separated, there being no word boundary before the second |
| SponsorCleanupExamples.OnceFirstRewrite | extract_bill_info.py:60 | A second pass separates the second title from the name |
| SponsorCleanupExamples.CleanupNotIdempotent | extract_bill_info.py:60-65 | Cleaning up twice differs from cleaning up once on `DelegateDelegateX` |
| Seqs.EmitRows | extract_bill_info.py:69-71 | The rows written are the header followed by the items in order |
| Dom.FindAll | extract_bill_info.py:29 | `find_all` gives exactly the matching descendants, no more of them than there are descendants |
| Dom.SelectAppend | scrapper.py:47-48 | Selection keeps document order: selecting from two stretches gives the first stretch's matches, then the second's |
| Dom.FindChildren | extract_bill_info.py:15 | `find_all(..., recursive=False)` gives exactly the matching direct children |
| PyDict.Get | extract_bill_info.py:52 | `get` gives nothing exactly when the key is absent, otherwise a value stored under the key |
| Dom.Find | extract_bill_info.py:10 | `find` gives nothing exactly when no descendant matches, otherwise the first matching descendant in document order |
| PyDict.Set | extract_bill_info.py:19 | Assignment replaces the value of a present key in place or appends a new key, changes no other key, and keeps keys unique |
| PyDict.GetOr | scrapper_MD_legislation.py:39-43 | `get(k, default)` gives the default for a missing key and the stored value otherwise |
| PyDict.FromPairsGet | scrapper.py:66 | After assigning a sequence of pairs, a key holds the value of its last pair |
| PyDict.FromPairsKeys | scrapper.py:66-73 | After assigning a sequence of pairs, the keys are in first-assigned order |
| PyDict.FromPairsEntries | scrapper.py:66 | Every entry is one of the assigned pairs |
| DlTable.Field | scrapper.py:51-64 | `Sponsored by` is its links' texts joined by `", "`, `Analysis` the first link's text or `N/A`, any other field the `dd` text |
| DlTable.Fields | scrapper.py:50 | Positional pairing gives as many fields as the shorter of the `dt` and `dd` lists, the `i`-th being the field of the `i`-th `dt` with the `i`-th `dd` |
| DlTable.ScrapeDlTable | scrapper.py:39-73 | The loop writes nothing without a top box, otherwise the header followed by the fields in dict order |
| DlTable.ExtractedOrderAndValues | scrapper.py:66-73 | Fields come out in the order their names first appear, each with the value of its last pair |
| DlTable.ExtractedEntries | scrapper.py:47-66 | Every field comes from a `dt` and the `dd` at the same position, and there are no more fields than pairs |
| DlTable.NoTopBoxNoRows | scrapper.py:39-43 | No rows are written exactly when no `dl.row top-box` exists |
| WitnessList.RowWitness | scrapper.py:108-113 | A row gives a witness exactly when it has at least three cells, and the witness is its first three cells |
| WitnessList.DropFirst | scrapper.py:107 | `rows[1:]`: one fewer element, each shifted by one |
| WitnessList.ScrapeWitnessList | scrapper.py:97-113 | The loop writes nothing without the table, otherwise the header followed by the witnesses in row order |
| WitnessList.WitnessRows | scrapper_MD_legislation.py:76-83 | A witness is written if and only if some row after the first has at least three cells and holds it in its first three |
| WitnessList.FirstRowSkipped | scrapper.py:107 | The first row is never written, whatever it holds |
| WitnessList.WitnessCount | scrapper.py:104-107 | The header comes first and there are no more witnesses than rows after the first |
| BillNumbers.Pad4 | scrapper.py:124 | The padded number has at least four characters, all digits |
| BillNumbers.Pad4RoundTrip | scrapper.py:124 | Reading the padded number back as an integer gives the bill number |
| BillNumbers.Pad4Injective | scrapper.py:124 | Distinct bill numbers have distinct padded forms |
| BillNumbers.Pad4Length | scrapper_MD_legislation.py:94 | Numbers below 10000 are written with exactly four digits |
| BillNumbers.Pad4Last | scrapper.py:136 | The last padded digit is the last decimal digit |
| BillNumbers.FiscalNoteFolder | scrapper.py:136-137 | The fiscal-note folder is `bil_000d` with `d` the bill number modulo 10 |
| BillNumbers.WithNumber | scrapper.py:28-29 | A name built from a prefix, the padded number and a suffix starts with the prefix and ends with the suffix, and when the suffix does not start with a digit the digits after the prefix are the padded number, which reads back as the bill number |
| BillNumbers.DetailsUrl | scrapper.py:28 | The summary page URL is the fixed Details prefix, the four-digit padded bill number, and the session suffix `?ys=<year>RS` |
| BillNumbers.SummaryFile | scrapper.py:29 | The summary file name is `<folder>/bill_`, the padded bill number, and `_summary.csv` |
| BillNumbers.BillPdfUrl | scrapper.py:129 | The bill PDF URL is the session's `bills/hb/hb` prefix, the padded bill number, and `F.pdf` |
| BillNumbers.BillPdfFile | scrapper.py:130 | The bill PDF file name is `<folder>/bill_`, the padded bill number, and `.pdf` |
| BillNumbers.FiscalNoteUrl | scrapper.py:136-138 | The fiscal-note URL is the session's `fnotes/bil_000d/hb` prefix, the padded whole bill number, and `.pdf` |
| BillNumbers.FiscalNoteFile | scrapper.py:139 | The fiscal-note file name is `<folder>/bill_`, the padded bill number, and `_fiscal_note.pdf` |
| BillNumbers.WitnessUrl | scrapper.py:89 | As written, the witness URL is the per-bill URL of bill 1, whatever the bill |
| BillNumbers.WitnessUrlForBill | scrapper.py:88 | The per-bill witness URL is the WitnessSignup prefix, the padded bill number, and the session suffix |
| BillNumbers.WitnessFile | scrapper.py:90 | The witness file name is `<folder>/bill_`, the padded bill number, and `_witness_list.csv` |
| BillNumbers.NameIsParts | scrapper.py:28-29 | A name that starts with the prefix, continues with the padded number, ends with the suffix and has exactly their combined length is the prefix, the padded number and the suffix |
| BillNumbers.SummaryNamesDistinct | scrapper.py:28-29 | Distinct bills get distinct summary URLs and summary files |
| BillNumbers.PdfNamesDistinct | scrapper.py:129-139 | Distinct bills get distinct bill-PDF and fiscal-note file names |
| BillNumbers.WitnessUrlIgnoresBill | scrapper.py:88-90 | As written, all bills fetch the same witness page while writing distinct files |
| BillNumbers.WitnessUrlForBillDistinct | scrapper_MD_legislation.py:58 | The per-bill witness URL differs for distinct bills |
| BillRecord.ScrapeAndSave | scrapper_MD_legislation.py:36-45 | The page's two dicts feed the five-field record, whose writing never fails and gives the header and the normalised record |
| BillRecord.AssembleRecord | scrapper_MD_legislation.py:38-44 | The record has exactly the keys Title, Sponsored by, Status, Synopsis, Committees, in that order, each once |
| BillRecord.RecordValues | scrapper_MD_legislation.py:39-43 | The first three fields come from the top box, the last two from the details tab, each `''` when missing, Committees passed on as it is |
| BillRecord.RecordNeverFails | scrapper_MD_legislation.py:40 | The sponsor value is always a string, so the writer never raises |
| BillRecord.SynopsisIsText | extract_bill_info.py:34-35 | The details tab's Synopsis is always a string |
| BillRecord.WrittenRecord | scrapper_MD_legislation.py:36-45 | What gets written for a page has the five fields in order, every value a string |

## Left out

- Network access (`requests.get`, `raise_for_status`, `download_pdf`) is not modelled: the page is a parameter, and the handlers of `RequestException` and of other exceptions, which only print, are left out.
- Files, folders (`os.makedirs`) and the `csv` module's quoting are not modelled: the output is the sequence of rows the writer would receive.
- HTML parsing and `get_text(strip=True)` are not modelled: the tree is given and each node's text is an abstract field, not derived from its children.
- The `class_` match on a multi-class string is approximated by comparing it with the classes joined by single blanks.
- `print` logging and the `__main__` loops over bill numbers are left out; the driver's URLs and file names are modelled for one bill number, with the year and the folder as parameters instead of module globals.
- The `main` of extract_bill_info.py (lines 73-99) is left out; it assembles the same record as `BillRecord.AssembleRecord`.
- SponsorCleanup.IsWordChar: `\w` and `\b` are ASCII-only here, whereas Python's `re` on `str` also counts non-ASCII letters and digits as word characters.
- BillNumbers.Pad4: bill numbers are natural numbers; the negative numbers `{n:04d}` would also format never occur in the loops.
- BillSummary.WriteBillSummary: a list value left in the record (an empty `Sponsored by` list, or a list in any field other than `Committees`) would be written as its Python `repr`; the model keeps the list in the row.
- SponsorCleanup.CleanupSpec: states properties of the clean-up rather than its exact result; exact results are proved for the worked inputs of `SponsorCleanupExamples` only.
- The caller's dict is not mutated by the writer (the `copy()` at extract_bill_info.py:50): dicts are values here, so this holds by construction.

## Findings

| source | as written | input that shows it | evidently intended | confidence | as-written member | corrected member |
|---|---|---|---|---|---|---|
| scrapper.py:88-89 (also scrapper_MD_legislation.py:58-59) | the per-bill witness URL is overwritten by a fixed one naming HB0001 | bills 1 and 2 fetch the same page and save it as two files | each bill's own witness page, as the overwritten line builds it | medium, not executed | BillNumbers.WitnessUrlIgnoresBill | BillNumbers.WitnessUrlForBillDistinct |
