/**
 * `scrape_witness_list` (the same in scrapper.py and
 * scrapper_MD_legislation.py): the rows of the table with id
 * `legislationTestimony`, without its first row, keeping rows with at
 * least three `td` cells and writing their first three cells.
 */
module WitnessList {
  import opened Wrappers
  import opened Dom
  import opened Seqs

  type Witness = (string, string, string)

  const WitnessTable := Selector({"table"}, None, Some("legislationTestimony"))
  const WitnessHeader: Witness := ("Name", "Organization", "Position")

  /** `row.find_all('td')`. */
  function Cells(row: Node): seq<Node> {
    FindAll(row, ByTag("td"))
  }

  /** The witness a row gives: its first three cells, when it has three. */
  function RowWitness(row: Node): (r: Option<Witness>)
    ensures r.Some? <==> |Cells(row)| >= 3
    ensures r.Some? ==> r.value == (Cells(row)[0].text, Cells(row)[1].text, Cells(row)[2].text)
  {
    var cols := Cells(row);
    if |cols| >= 3 then Some((cols[0].text, cols[1].text, cols[2].text)) else None
  }

  /** `rows[1:]`. */
  function DropFirst<T>(xs: seq<T>): (r: seq<T>)
    ensures |r| == if xs == [] then 0 else |xs| - 1
    ensures forall i :: 0 <= i < |r| ==> r[i] == xs[i + 1]
  {
    if xs == [] then [] else xs[1..]
  }

  /** The witnesses of a table, in row order. */
  function Witnesses(table: Node): seq<Witness> {
    FilterMap(DropFirst(FindAll(table, ByTag("tr"))), RowWitness)
  }

  /** The rows written for the page `doc`: no file without the table. */
  function WitnessListOf(doc: Node): Option<seq<Witness>> {
    match Find(doc, WitnessTable)
    case None => None
    case Some(table) => Some([WitnessHeader] + Witnesses(table))
  }

  /** `scrape_witness_list`, with the rows it writes as the result. */
  method ScrapeWitnessList(doc: Node) returns (out: Option<seq<Witness>>)
    ensures out == WitnessListOf(doc)
  {
    var table := Find(doc, WitnessTable);
    if table.None? {
      return None;
    }
    var rows := FindAll(table.value, ByTag("tr"));
    var body := DropFirst(rows);
    var written: seq<Witness> := [WitnessHeader];
    for i := 0 to |body|
      invariant written == [WitnessHeader] + FilterMap(body[..i], RowWitness)
    {
      WitnessStep(body, i);
      var cols := Cells(body[i]);
      if |cols| >= 3 {
        var name := cols[0].text;
        var organization := cols[1].text;
        var position := cols[2].text;
        written := written + [(name, organization, position)];
      }
    }
    assert body[..|body|] == body;
    return Some(written);
  }

  lemma WitnessStep(body: seq<Node>, i: nat)
    requires i < |body|
    ensures var cols := Cells(body[i]);
      FilterMap(body[..i + 1], RowWitness)
      == if |cols| >= 3 then FilterMap(body[..i], RowWitness) + [(cols[0].text, cols[1].text, cols[2].text)]
         else FilterMap(body[..i], RowWitness)
  {
    FilterMapStep(body, RowWitness, i);
  }

  // ---------------------------------------------------------------------
  // Properties.

  /**
   * A witness is written exactly for a row other than the first with at
   * least three cells, and it holds that row's first three cells.
   */
  lemma WitnessRows(table: Node, w: Witness)
    ensures w in Witnesses(table) <==>
      exists i :: 1 <= i < |FindAll(table, ByTag("tr"))|
        && |Cells(FindAll(table, ByTag("tr"))[i])| >= 3
        && w == (Cells(FindAll(table, ByTag("tr"))[i])[0].text,
                 Cells(FindAll(table, ByTag("tr"))[i])[1].text,
                 Cells(FindAll(table, ByTag("tr"))[i])[2].text)
  {
    var rows := FindAll(table, ByTag("tr"));
    var body := DropFirst(rows);
    FilterMapMembers(body, RowWitness, w);
    if w in Witnesses(table) {
      var j :| 0 <= j < |body| && RowWitness(body[j]) == Some(w);
      assert body[j] == rows[j + 1];
    }
    if exists i :: 1 <= i < |rows| && |Cells(rows[i])| >= 3
        && w == (Cells(rows[i])[0].text, Cells(rows[i])[1].text, Cells(rows[i])[2].text) {
      var i :| 1 <= i < |rows| && |Cells(rows[i])| >= 3
        && w == (Cells(rows[i])[0].text, Cells(rows[i])[1].text, Cells(rows[i])[2].text);
      assert body[i - 1] == rows[i];
    }
  }

  /** The first row is never written, whatever it holds. */
  lemma FirstRowSkipped(first: Node, rest: seq<Node>)
    ensures FilterMap(DropFirst([first] + rest), RowWitness) == FilterMap(rest, RowWitness)
  {
    assert DropFirst([first] + rest) == rest;
  }

  /** The header comes first, and there are fewer witnesses than rows. */
  lemma WitnessCount(doc: Node, table: Node)
    requires Find(doc, WitnessTable) == Some(table)
    ensures WitnessListOf(doc).Some? && WitnessListOf(doc).value[0] == WitnessHeader
    ensures |WitnessListOf(doc).value| <= if FindAll(table, ByTag("tr")) == [] then 1 else |FindAll(table, ByTag("tr"))|
  {
  }
}
