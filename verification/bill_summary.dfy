/**
 * `write_bill_summary_to_csv` of extract_bill_info.py: normalise a copy of
 * the record (join a list-valued `Committees`, clean up `Sponsored by`)
 * and emit a header row followed by one row per field, in dict order.
 */
module BillSummary {
  import opened Wrappers
  import opened Strings
  import opened PyDict
  import opened DetailsTab
  import opened SponsorCleanup
  import opened Seqs

  /** `re.sub` raises `TypeError` when `Sponsored by` holds a non-empty list. */
  datatype WriteError = SponsorNotString

  /** One CSV row: a field name and its value. */
  type Row = (string, FieldValue)

  const Header: Row := ("Field", Text("Value"))

  /** Python truthiness of a field value: a non-empty string or list. */
  predicate Truthy(v: FieldValue) {
    match v
    case Text(s) => s != ""
    case List(xs) => xs != []
  }

  /** Lines 52-53: a list-valued `Committees` becomes its items joined by `"; "`. */
  function JoinCommittees(data: Dict<FieldValue>): Dict<FieldValue> {
    var v := Get(data, "Committees");
    if v.Some? && v.value.List? then Set(data, "Committees", Text(Join(v.value.items, "; ")))
    else data
  }

  /** Lines 56-65: the sponsor clean-up, run only when the value is truthy. */
  function CleanSponsor(data: Dict<FieldValue>): Result<Dict<FieldValue>, WriteError> {
    match Get(data, "Sponsored by")
    case Some(v) =>
      if !Truthy(v) then Ok(data)
      else if v.List? then Err(SponsorNotString)
      else Ok(Set(data, "Sponsored by", Text(Cleanup(v.s))))
    case None => Ok(data)
  }

  /** The record as it is written out (lines 50-65). */
  function Normalize(data: Dict<FieldValue>): Result<Dict<FieldValue>, WriteError> {
    CleanSponsor(JoinCommittees(data))
  }

  /** The value of `Sponsored by` is a non-empty list. */
  predicate SponsorIsList(data: Dict<FieldValue>) {
    var v := Get(data, "Sponsored by");
    v.Some? && v.value.List? && v.value.items != []
  }

  /** Lines 50-65: the copy of the record and the updates made to it. */
  method NormalizeRecord(data: Dict<FieldValue>) returns (out: Result<Dict<FieldValue>, WriteError>)
    ensures out == Normalize(data)
  {
    var d := data;
    var committees := Get(d, "Committees");
    if committees.Some? && committees.value.List? {
      d := Set(d, "Committees", Text(Join(committees.value.items, "; ")));
    }
    assert d == JoinCommittees(data);
    var sponsored := Get(d, "Sponsored by");
    if sponsored.Some? && Truthy(sponsored.value) {
      if sponsored.value.List? {
        return Err(SponsorNotString);
      }
      d := Set(d, "Sponsored by", Text(Cleanup(sponsored.value.s)));
    }
    return Ok(d);
  }

  /**
   * `write_bill_summary_to_csv(data, path)`, with the rows it writes as
   * the result: the header, then one row per field in dict order. On
   * `TypeError` nothing is written.
   */
  method WriteBillSummary(data: Dict<FieldValue>) returns (out: Result<seq<Row>, WriteError>)
    ensures out.Err? <==> Normalize(data).Err?
    ensures out.Ok? ==> out.value == [Header] + Normalize(data).value
  {
    var normalized := NormalizeRecord(data);
    if normalized.Err? {
      return Err(normalized.error);
    }
    var rows := EmitRows(Header, normalized.value);
    return Ok(rows);
  }

  // ---------------------------------------------------------------------
  // Properties of the normalisation.

  lemma JoinCommitteesKeys(data: Dict<FieldValue>)
    ensures Keys(JoinCommittees(data)) == Keys(data)
    ensures forall k :: k != "Committees" ==> Get(JoinCommittees(data), k) == Get(data, k)
  {
  }

  /** The write fails exactly when `Sponsored by` holds a non-empty list. */
  lemma NormalizeFails(data: Dict<FieldValue>)
    ensures Normalize(data).Err? <==> SponsorIsList(data)
  {
    JoinCommitteesKeys(data);
    assert "Sponsored by" != "Committees";
  }

  /**
   * The keys keep their order and no key is added or dropped; every field
   * other than `Committees` and `Sponsored by` keeps its value.
   */
  lemma NormalizeKeepsFields(data: Dict<FieldValue>)
    requires Normalize(data).Ok?
    ensures Keys(Normalize(data).value) == Keys(data)
    ensures forall k :: k != "Committees" && k != "Sponsored by" ==>
      Get(Normalize(data).value, k) == Get(data, k)
  {
    JoinCommitteesKeys(data);
  }

  /** A list-valued `Committees` is joined in order; any other value is kept. */
  lemma NormalizeCommittees(data: Dict<FieldValue>)
    requires Normalize(data).Ok?
    ensures forall xs :: Get(data, "Committees") == Some(List(xs)) ==>
      Get(Normalize(data).value, "Committees") == Some(Text(Join(xs, "; ")))
    ensures (forall xs :: Get(data, "Committees") != Some(List(xs))) ==>
      Get(Normalize(data).value, "Committees") == Get(data, "Committees")
  {
    assert "Sponsored by" != "Committees";
  }

  /**
   * A non-empty sponsor string is cleaned up: no two adjacent blanks, no
   * trailing blank, the same characters other than blanks in order, and
   * the first character kept; an empty or missing sponsor is left alone.
   */
  lemma NormalizeSponsor(data: Dict<FieldValue>, s: string)
    requires Get(data, "Sponsored by") == Some(Text(s))
    ensures Normalize(data).Ok?
    ensures s == "" ==> Get(Normalize(data).value, "Sponsored by") == Some(Text(s))
    ensures s != "" ==> Get(Normalize(data).value, "Sponsored by") == Some(Text(Cleanup(s)))
    ensures s != "" ==> exists c ::
      && Get(Normalize(data).value, "Sponsored by") == Some(Text(c))
      && NoDoubleBlank(c)
      && (c == [] || c[|c| - 1] != ' ')
      && NonBlank(c) == NonBlank(s)
      && (NonBlank(s) != [] ==> c != [] && c[0] == s[0])
  {
    JoinCommitteesKeys(data);
    assert "Sponsored by" != "Committees";
    if s != "" {
      CleanupSpec(s);
      assert Get(Normalize(data).value, "Sponsored by") == Some(Text(Cleanup(s)));
    }
  }

  /**
   * When every field but `Committees` holds a string, every field of the
   * written record does.
   */
  lemma NormalizeAllText(data: Dict<FieldValue>)
    requires Valid(data)
    requires forall e :: e in data && e.0 != "Committees" ==> e.1.Text?
    ensures Normalize(data).Ok?
    ensures forall e :: e in Normalize(data).value ==> e.1.Text?
  {
    var c := JoinCommittees(data);
    assert forall e :: e in c ==> e in data || e.1.Text?;
    assert Valid(c);
    assert forall e :: e in c ==> e.1.Text? by {
      forall e | e in c ensures e.1.Text? {
        ValidGet(c, e.0, e.1);
        if e.0 == "Committees" && Get(data, "Committees").Some? {
          ValidGet(data, "Committees", Get(data, "Committees").value);
        }
      }
    }
    var s := Get(c, "Sponsored by");
    if s.Some? {
      assert ("Sponsored by", s.value) in c;
    }
  }

  /**
   * The joined Committees string gives back the committee names, in order,
   * when it is split on `;` and the separator's blank is dropped, as long
   * as no name contains a semicolon.
   */
  lemma CommitteesRecoverable(data: Dict<FieldValue>, xs: seq<string>)
    requires Get(data, "Committees") == Some(List(xs)) && Normalize(data).Ok?
    requires xs != [] && forall i :: 0 <= i < |xs| ==> ';' !in xs[i]
    ensures exists c :: Get(Normalize(data).value, "Committees") == Some(Text(c)) && SplitJoined(c) == xs
  {
    NormalizeCommittees(data);
    JoinRoundTrip(xs);
  }
}
