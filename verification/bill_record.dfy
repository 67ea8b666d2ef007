/**
 * `scrape_and_save_dl_table` of scrapper_MD_legislation.py: the two
 * extractors of extract_bill_info.py feed a fixed five-field record,
 * which the summary writer normalises and writes.
 */
module BillRecord {
  import opened Wrappers
  import opened PyDict
  import opened Dom
  import opened TopBox
  import opened DetailsTab
  import opened BillSummary

  const RecordFields: seq<string> := ["Title", "Sponsored by", "Status", "Synopsis", "Committees"]

  /**
   * The `csv_data` dict literal: exactly the five fields, in this order, the
   * first three from the top box and the last two from the details tab,
   * each defaulting to `''`.
   */
  function AssembleRecord(top: Dict<string>, details: Dict<FieldValue>): (r: Dict<FieldValue>)
    ensures Keys(r) == RecordFields && Valid(r)
  {
    [ ("Title", Text(GetOr(top, "Title", "")))
    , ("Sponsored by", Text(GetOr(top, "Sponsored by", "")))
    , ("Status", Text(GetOr(top, "Status", "")))
    , ("Synopsis", GetOr(details, "Synopsis", Text("")))
    , ("Committees", GetOr(details, "Committees", Text("")))
    ]
  }

  /** `scrape_and_save_dl_table(bill_number)` on the fetched page `doc`: the rows written. */
  method ScrapeAndSave(doc: Node) returns (out: Result<seq<Row>, WriteError>)
    ensures Normalize(AssembleRecord(TopBoxOf(doc), DetailsOf(doc))).Ok?
    ensures out == Ok([Header] + Normalize(AssembleRecord(TopBoxOf(doc), DetailsOf(doc))).value)
  {
    var topBox := ExtractTopBox(doc);
    var detailsTab := ExtractDetailsTab(doc);
    var csvData := AssembleRecord(topBox, detailsTab);
    RecordNeverFails(topBox, detailsTab);
    out := WriteBillSummary(csvData);
  }

  // ---------------------------------------------------------------------
  // Properties.

  /**
   * The first three fields come from the top box and the last two from the
   * details tab, each `''` when its source lacks it; `Committees` is passed
   * on as it is, list or string.
   */
  lemma RecordValues(top: Dict<string>, details: Dict<FieldValue>)
    ensures Get(AssembleRecord(top, details), "Title") == Some(Text(GetOr(top, "Title", "")))
    ensures Get(AssembleRecord(top, details), "Sponsored by") == Some(Text(GetOr(top, "Sponsored by", "")))
    ensures Get(AssembleRecord(top, details), "Status") == Some(Text(GetOr(top, "Status", "")))
    ensures Get(AssembleRecord(top, details), "Synopsis") == Some(GetOr(details, "Synopsis", Text("")))
    ensures Get(AssembleRecord(top, details), "Committees") == Some(GetOr(details, "Committees", Text("")))
  {
    var r := AssembleRecord(top, details);
    ValidGet(r, r[0].0, r[0].1);
    ValidGet(r, r[1].0, r[1].1);
    ValidGet(r, r[2].0, r[2].1);
    ValidGet(r, r[3].0, r[3].1);
    ValidGet(r, r[4].0, r[4].1);
  }

  /** The sponsor value of the record is always a string, so the writer never raises. */
  lemma RecordNeverFails(top: Dict<string>, details: Dict<FieldValue>)
    ensures Normalize(AssembleRecord(top, details)).Ok?
  {
    var r := AssembleRecord(top, details);
    ValidGet(r, r[1].0, r[1].1);
    NormalizeFails(r);
  }

  /** Every Synopsis the details tab yields is a string. */
  lemma SynopsisIsText(doc: Node)
    ensures forall v :: ("Synopsis", v) in DetailsOf(doc) ==> v.Text?
  {
    if Find(doc, DetailsSelector).Some? {
      var tab := Find(doc, DetailsSelector).value;
      var rows := FindAll(tab, RowSelector);
      DetailsFromRows(doc, tab);
      forall v | ("Synopsis", v) in DetailsOf(doc) ensures v.Text? {
        var i :| 0 <= i < |rows| && RowEntry(rows[i]) == Some(("Synopsis", v));
      }
    }
  }

  /**
   * A record whose Synopsis is a string is written with the five fields in
   * order and every value a string.
   */
  lemma RecordAllText(top: Dict<string>, details: Dict<FieldValue>)
    requires GetOr(details, "Synopsis", Text("")).Text?
    ensures var r := Normalize(AssembleRecord(top, details));
      && r.Ok?
      && Keys(r.value) == RecordFields
      && (forall e :: e in r.value ==> e.1.Text?)
  {
    var rec := AssembleRecord(top, details);
    assert forall e :: e in rec && e.0 != "Committees" ==> e.1.Text? by {
      assert rec[3].1 == GetOr(details, "Synopsis", Text(""));
    }
    NormalizeAllText(rec);
    NormalizeKeepsFields(rec);
  }

  /**
   * What gets written for a page: the five fields in order and every
   * value a string (Committees joined, the sponsor cleaned up).
   */
  lemma WrittenRecord(doc: Node)
    ensures var r := Normalize(AssembleRecord(TopBoxOf(doc), DetailsOf(doc)));
      && r.Ok?
      && Keys(r.value) == RecordFields
      && (forall e :: e in r.value ==> e.1.Text?)
  {
    SynopsisIsText(doc);
    var details := DetailsOf(doc);
    if "Synopsis" in Keys(details) {
      assert ("Synopsis", GetOr(details, "Synopsis", Text(""))) in details;
    }
    RecordAllText(TopBoxOf(doc), details);
  }
}
