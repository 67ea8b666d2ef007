/**
 * `extract_details_tab_info` of extract_bill_info.py: the `Synopsis` and
 * `Committees` rows of the `div` with class `row details-tab-info`.
 */
module DetailsTab {
  import opened Wrappers
  import opened PyDict
  import opened Dom
  import opened Seqs

  /** A field value as the extractors produce it: a string, or a list of strings. */
  datatype FieldValue = Text(s: string) | List(items: seq<string>)

  const DetailsSelector := Selector({"div"}, Some("row details-tab-info"), None)
  const RowSelector := Selector({"div"}, Some("row"), None)

  /** `row.find_all('div', recursive=False)`. */
  function Cols(row: Node): seq<Node> {
    FindChildren(row, ByTag("div"))
  }

  /** The Committees value: the link texts when there is a link, the container's text otherwise. */
  function CommitteesValue(value: Node): (r: FieldValue)
    ensures r.List? <==> LinkTexts(value) != []
    ensures r.List? ==> r.items == LinkTexts(value)
    ensures r.Text? ==> r.s == value.text
  {
    var links := LinkTexts(value);
    if links != [] then List(links) else Text(value.text)
  }

  /**
   * The assignment one row makes, if any: a row with two direct `div`
   * children labelled `Synopsis` sets the value's text, one labelled
   * `Committees` sets the Committees value, every other row sets nothing.
   */
  function RowEntry(row: Node): (r: Option<(string, FieldValue)>)
    ensures r.Some? <==> |Cols(row)| >= 2 && Cols(row)[0].text in {"Synopsis", "Committees"}
    ensures r.Some? ==> r.value.0 == Cols(row)[0].text
    ensures r.Some? && r.value.0 == "Synopsis" ==> r.value.1 == Text(Cols(row)[1].text)
    ensures r.Some? && r.value.0 == "Committees" ==> r.value.1 == CommitteesValue(Cols(row)[1])
  {
    var cols := Cols(row);
    if |cols| < 2 then None
    else if cols[0].text == "Synopsis" then Some(("Synopsis", Text(cols[1].text)))
    else if cols[0].text == "Committees" then Some(("Committees", CommitteesValue(cols[1])))
    else None
  }

  /** The assignments of all rows, in document order. */
  function RowEntries(rows: seq<Node>): seq<(string, FieldValue)> {
    FilterMap(rows, RowEntry)
  }

  /** What `extract_details_tab_info` returns for the page `doc`. */
  function DetailsOf(doc: Node): Dict<FieldValue> {
    match Find(doc, DetailsSelector)
    case None => []
    case Some(tab) => FromPairs(RowEntries(FindAll(tab, RowSelector)))
  }

  lemma RowEntriesStep(rows: seq<Node>, i: nat)
    requires i < |rows|
    ensures FromPairs(RowEntries(rows[..i + 1]))
         == match RowEntry(rows[i])
            case None => FromPairs(RowEntries(rows[..i]))
            case Some(e) => Set(FromPairs(RowEntries(rows[..i])), e.0, e.1)
  {
    FilterMapStep(rows, RowEntry, i);
    var ps := RowEntries(rows[..i]);
    if RowEntry(rows[i]).Some? {
      var p := RowEntry(rows[i]).value;
      assert RowEntries(rows[..i + 1]) == ps + [p];
      assert (ps + [p])[..|ps|] == ps;
    }
  }

  /** `extract_details_tab_info(soup)`. */
  method ExtractDetailsTab(doc: Node) returns (result: Dict<FieldValue>)
    ensures result == DetailsOf(doc)
    ensures Find(doc, DetailsSelector).None? ==> result == []
  {
    result := [];
    var detailsTab := Find(doc, DetailsSelector);
    if detailsTab.None? {
      return;
    }
    var rows := FindAll(detailsTab.value, RowSelector);
    for i := 0 to |rows|
      invariant result == FromPairs(RowEntries(rows[..i]))
    {
      var row := rows[i];
      RowEntriesStep(rows, i);
      var cols := Cols(row);
      if |cols| >= 2 {
        var caption := cols[0].text;
        var value := cols[1].text;
        if caption == "Synopsis" {
          assert RowEntry(row) == Some(("Synopsis", Text(value)));
          result := Set(result, "Synopsis", Text(value));
        } else if caption == "Committees" {
          var committees: seq<string> := [];
          var links := FindAll(cols[1], ByTag("a"));
          for j := 0 to |links|
            invariant committees == Texts(links[..j])
          {
            TextsStep(links, j);
            committees := committees + [links[j].text];
          }
          assert links[..|links|] == links;
          assert RowEntry(row) == Some(("Committees", CommitteesValue(cols[1])));
          result := Set(result, "Committees", if committees != [] then List(committees) else Text(value));
        } else {
          assert RowEntry(row) == None;
        }
      } else {
        assert RowEntry(row) == None;
      }
    }
    assert rows[..|rows|] == rows;
  }

  lemma TextsStep(xs: seq<Node>, j: nat)
    requires j < |xs|
    ensures Texts(xs[..j + 1]) == Texts(xs[..j]) + [xs[j].text]
  {
  }

  // ---------------------------------------------------------------------
  // Properties.

  /** Every entry of the result was assigned by one of the rows. */
  lemma DetailsFromRows(doc: Node, tab: Node)
    requires Find(doc, DetailsSelector) == Some(tab)
    ensures forall e :: e in DetailsOf(doc) ==>
      exists i :: 0 <= i < |FindAll(tab, RowSelector)| && RowEntry(FindAll(tab, RowSelector)[i]) == Some(e)
  {
    var rows := FindAll(tab, RowSelector);
    FromPairsEntries(RowEntries(rows));
    forall e | e in DetailsOf(doc)
      ensures exists i :: 0 <= i < |rows| && RowEntry(rows[i]) == Some(e)
    {
      FilterMapMembers(rows, RowEntry, e);
    }
  }

  /**
   * Looking a key up gives the value assigned by the last row that sets it,
   * and nothing when no row sets it.
   */
  lemma DetailsGet(doc: Node, tab: Node, k: string)
    requires Find(doc, DetailsSelector) == Some(tab)
    ensures Get(DetailsOf(doc), k) == LastValue(RowEntries(FindAll(tab, RowSelector)), k)
  {
    FromPairsGet(RowEntries(FindAll(tab, RowSelector)), k);
  }

  /** Only `Synopsis` and `Committees` are ever set. */
  lemma DetailsKeys(doc: Node)
    ensures forall k :: k in Keys(DetailsOf(doc)) ==> k == "Synopsis" || k == "Committees"
  {
    var d := DetailsOf(doc);
    if Find(doc, DetailsSelector).Some? {
      var tab := Find(doc, DetailsSelector).value;
      var rows := FindAll(tab, RowSelector);
      DetailsFromRows(doc, tab);
      forall k | k in Keys(d) ensures k == "Synopsis" || k == "Committees" {
        var j :| 0 <= j < |d| && Keys(d)[j] == k;
        var e := d[j];
        assert e in d;
        var i :| 0 <= i < |rows| && RowEntry(rows[i]) == Some(e);
      }
    }
  }

  lemma AppendRow(rows: seq<Node>, row: Node)
    ensures FromPairs(RowEntries(rows + [row]))
         == match RowEntry(row)
            case None => FromPairs(RowEntries(rows))
            case Some(e) => Set(FromPairs(RowEntries(rows)), e.0, e.1)
  {
    var all := rows + [row];
    assert all[..|rows|] == rows && all[..|rows| + 1] == all && all[|rows|] == row;
    RowEntriesStep(all, |rows|);
  }

  /**
   * A row whose first column reads `Committees` decides the value unless a
   * later row sets it again, so the last such row wins.
   */
  lemma LaterRowWins(rows: seq<Node>, row: Node)
    requires |Cols(row)| >= 2 && Cols(row)[0].text == "Committees"
    ensures Get(FromPairs(RowEntries(rows + [row])), "Committees") == Some(CommitteesValue(Cols(row)[1]))
  {
    AppendRow(rows, row);
  }

  /** A row with fewer than two direct `div` children changes nothing. */
  lemma ShortRowSkipped(rows: seq<Node>, row: Node)
    requires |Cols(row)| < 2
    ensures FromPairs(RowEntries(rows + [row])) == FromPairs(RowEntries(rows))
  {
    AppendRow(rows, row);
  }
}
