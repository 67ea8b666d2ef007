/**
 * The `dl` table extraction of `scrape_and_save_dl_table` in scrapper.py:
 * every `dt` below the `dl` with class `row top-box` is paired by
 * position with every `dd`, a field per pair, with special handling of
 * `Sponsored by` and `Analysis`.
 */
module DlTable {
  import opened Wrappers
  import opened Strings
  import opened PyDict
  import opened Dom
  import opened Seqs
  import TopBox

  /** The field one (dt, dd) pair produces (scrapper.py, lines 51-64). */
  function Field(dt: Node, dd: Node): (r: (string, string))
    ensures r.0 == dt.text
    ensures dt.text == "Sponsored by" ==> r.1 == Join(LinkTexts(dd), ", ")
    ensures dt.text == "Analysis" && LinkTexts(dd) == [] ==> r.1 == "N/A"
    ensures dt.text == "Analysis" && LinkTexts(dd) != [] ==> r.1 == LinkTexts(dd)[0]
    ensures dt.text != "Sponsored by" && dt.text != "Analysis" ==> r.1 == dd.text
  {
    if dt.text == "Sponsored by" then (dt.text, Join(LinkTexts(dd), ", "))
    else if dt.text == "Analysis" then
      (dt.text, match Find(dd, ByTag("a")) case Some(a) => a.text case None => "N/A")
    else (dt.text, dd.text)
  }

  function Min(a: nat, b: nat): nat {
    if a <= b then a else b
  }

  /** `zip(dt_tags, dd_tags)` mapped through `Field`: the longer list's extra tags are dropped. */
  function Fields(dts: seq<Node>, dds: seq<Node>): (r: seq<(string, string)>)
    ensures |r| == Min(|dts|, |dds|)
    ensures forall i :: 0 <= i < |r| ==> r[i] == Field(dts[i], dds[i])
  {
    seq(Min(|dts|, |dds|), i requires 0 <= i < Min(|dts|, |dds|) => Field(dts[i], dds[i]))
  }

  /** The `extracted_data` dict for the `dl` element. */
  function ExtractedOf(dl: Node): Dict<string> {
    FromPairs(Fields(FindAll(dl, ByTag("dt")), FindAll(dl, ByTag("dd"))))
  }

  /**
   * The rows `scrape_and_save_dl_table` writes for the page `doc`: none
   * (no file) when there is no top box, otherwise the header and one row
   * per field in dict order.
   */
  function DlTableRows(doc: Node): Option<seq<(string, string)>> {
    match Find(doc, TopBox.TopBoxSelector)
    case None => None
    case Some(dl) => Some([("Field", "Value")] + ExtractedOf(dl))
  }

  /** `scrape_and_save_dl_table`, with the rows it writes as the result. */
  method ScrapeDlTable(doc: Node) returns (out: Option<seq<(string, string)>>)
    ensures out == DlTableRows(doc)
  {
    var dlElement := Find(doc, TopBox.TopBoxSelector);
    if dlElement.None? {
      return None;
    }
    var dl := dlElement.value;
    var extracted: Dict<string> := [];
    var dtTags := FindAll(dl, ByTag("dt"));
    var ddTags := FindAll(dl, ByTag("dd"));
    ghost var fields := Fields(dtTags, ddTags);
    for i := 0 to Min(|dtTags|, |ddTags|)
      invariant extracted == FromPairs(fields[..i])
    {
      var dt := dtTags[i];
      var dd := ddTags[i];
      var fieldName := dt.text;
      var fieldValue: string;
      if fieldName == "Sponsored by" {
        fieldValue := Join(LinkTexts(dd), ", ");
      } else if fieldName == "Analysis" {
        var link := Find(dd, ByTag("a"));
        fieldValue := if link.Some? then link.value.text else "N/A";
      } else {
        fieldValue := dd.text;
      }
      assert fields[i] == (fieldName, fieldValue);
      FromPairsPrefixStep(fields, i);
      extracted := Set(extracted, fieldName, fieldValue);
    }
    assert fields[..|fields|] == fields;
    var rows := EmitRows(("Field", "Value"), extracted);
    return Some(rows);
  }

  // ---------------------------------------------------------------------
  // Properties.

  /**
   * The fields come out in the order in which their names first appear
   * among the paired `dt` tags, and a repeated name holds the value of its
   * last pair.
   */
  lemma ExtractedOrderAndValues(dl: Node, k: string)
    ensures Keys(ExtractedOf(dl)) == FirstOccurrences(Keys(Fields(FindAll(dl, ByTag("dt")), FindAll(dl, ByTag("dd")))))
    ensures Get(ExtractedOf(dl), k) == LastValue(Fields(FindAll(dl, ByTag("dt")), FindAll(dl, ByTag("dd"))), k)
  {
    var ps := Fields(FindAll(dl, ByTag("dt")), FindAll(dl, ByTag("dd")));
    FromPairsKeys(ps);
    FromPairsGet(ps, k);
  }

  /** Each field name is the text of the `dt` at the same position as the `dd` it was read from. */
  lemma ExtractedEntries(dl: Node)
    ensures forall e :: e in ExtractedOf(dl) ==>
      exists i :: 0 <= i < Min(|FindAll(dl, ByTag("dt"))|, |FindAll(dl, ByTag("dd"))|)
        && e == Field(FindAll(dl, ByTag("dt"))[i], FindAll(dl, ByTag("dd"))[i])
    ensures |ExtractedOf(dl)| <= Min(|FindAll(dl, ByTag("dt"))|, |FindAll(dl, ByTag("dd"))|)
  {
    var dts := FindAll(dl, ByTag("dt"));
    var dds := FindAll(dl, ByTag("dd"));
    var ps := Fields(dts, dds);
    FromPairsEntries(ps);
    forall e | e in ExtractedOf(dl)
      ensures exists i :: 0 <= i < Min(|dts|, |dds|) && e == Field(dts[i], dds[i])
    {
      var i :| 0 <= i < |ps| && ps[i] == e;
    }
  }

  /** A page without the top box writes no file. */
  lemma NoTopBoxNoRows(doc: Node)
    ensures DlTableRows(doc).None? <==> forall x :: x in Descendants(doc) ==> !Matches(x, TopBox.TopBoxSelector)
  {
  }
}
