/**
 * `extract_top_box` of extract_bill_info.py: the label/value pairs of the
 * `dl` with class `row top-box`, read from its direct `dt` and `dd`
 * children with a pending-label state machine.
 */
module TopBox {
  import opened Wrappers
  import opened PyDict
  import opened Dom

  const TopBoxSelector := Selector({"dl"}, Some("row top-box"), None)
  const LabelOrValue := Selector({"dt", "dd"}, None, None)

  /** `top_box.find_all(['dt', 'dd'], recursive=False)`. */
  function LabelValueTags(dl: Node): (r: seq<Node>)
    ensures forall x :: x in r ==> x.tag == "dt" || x.tag == "dd"
  {
    FindChildren(dl, LabelOrValue)
  }

  /** A `dd` directly after a `dt` whose text is not empty makes an entry. */
  predicate IsPair(term: Node, desc: Node) {
    term.tag == "dt" && desc.tag == "dd" && term.text != ""
  }

  /**
   * Reference definition of the pairing: the (label text, value text) of
   * every adjacent (dt, dd) whose label is not empty, in document order.
   */
  function AdjacentPairs(tags: seq<Node>): (r: seq<(string, string)>)
    ensures forall e :: e in r ==> e.0 != ""
    ensures |r| <= |tags|
  {
    if |tags| < 2 then []
    else
      var prefix := AdjacentPairs(tags[..|tags| - 1]);
      var term := tags[|tags| - 2];
      var desc := tags[|tags| - 1];
      if IsPair(term, desc) then prefix + [(term.text, desc.text)] else prefix
  }

  /** What `extract_top_box` returns for the page `doc`. */
  function TopBoxOf(doc: Node): Dict<string> {
    match Find(doc, TopBoxSelector)
    case None => []
    case Some(dl) => FromPairs(AdjacentPairs(LabelValueTags(dl)))
  }

  /** The label the state machine holds: set by a `dt`, and `and key` is false for `''`. */
  predicate Pending(key: Option<string>) {
    key.Some? && key.value != ""
  }

  /** One more tag adds at most the entry of the pair it closes. */
  lemma PairUpStep(tags: seq<Node>, i: nat)
    requires i < |tags|
    ensures FromPairs(AdjacentPairs(tags[..i + 1]))
         == if i > 0 && IsPair(tags[i - 1], tags[i])
            then Set(FromPairs(AdjacentPairs(tags[..i])), tags[i - 1].text, tags[i].text)
            else FromPairs(AdjacentPairs(tags[..i]))
  {
    assert tags[..i + 1][..i] == tags[..i];
    var ps := AdjacentPairs(tags[..i]);
    if i > 0 && IsPair(tags[i - 1], tags[i]) {
      var p := (tags[i - 1].text, tags[i].text);
      assert AdjacentPairs(tags[..i + 1]) == ps + [p];
      assert (ps + [p])[..|ps|] == ps;
    }
  }

  /** `extract_top_box(soup)`. */
  method ExtractTopBox(doc: Node) returns (result: Dict<string>)
    ensures result == TopBoxOf(doc)
    ensures Find(doc, TopBoxSelector).None? ==> result == []
  {
    result := [];
    var topBox := Find(doc, TopBoxSelector);
    if topBox.None? {
      return;
    }
    var tags := LabelValueTags(topBox.value);
    var key: Option<string> := None;
    for i := 0 to |tags|
      invariant result == FromPairs(AdjacentPairs(tags[..i]))
      invariant Pending(key) <==> i > 0 && tags[i - 1].tag == "dt" && tags[i - 1].text != ""
      invariant Pending(key) ==> key.value == tags[i - 1].text
    {
      var tag := tags[i];
      assert tag in tags;
      PairUpStep(tags, i);
      if tag.tag == "dt" {
        key := Some(tag.text);
      } else if tag.tag == "dd" && Pending(key) {
        result := Set(result, key.value, tag.text);
        key := None;
      }
    }
    assert tags[..|tags|] == tags;
  }

  // ---------------------------------------------------------------------
  // Properties of the pairing.

  /** An entry comes from exactly an adjacent (dt, dd) with a non-empty label. */
  lemma {:induction false} AdjacentPairsMembers(tags: seq<Node>, k: string, v: string)
    ensures (k, v) in AdjacentPairs(tags)
        <==> exists i :: 1 <= i < |tags| && IsPair(tags[i - 1], tags[i]) && k == tags[i - 1].text && v == tags[i].text
  {
    if |tags| >= 2 {
      var n := |tags|;
      var prefix := tags[..n - 1];
      AdjacentPairsMembers(prefix, k, v);
      if (k, v) in AdjacentPairs(tags) && (k, v) !in AdjacentPairs(prefix) {
        assert IsPair(tags[n - 2], tags[n - 1]) && k == tags[n - 2].text && v == tags[n - 1].text;
      }
      if exists i :: 1 <= i < n && IsPair(tags[i - 1], tags[i]) && k == tags[i - 1].text && v == tags[i].text {
        var i :| 1 <= i < n && IsPair(tags[i - 1], tags[i]) && k == tags[i - 1].text && v == tags[i].text;
        if i < n - 1 {
          assert prefix[i - 1] == tags[i - 1] && prefix[i] == tags[i];
        }
      }
    }
  }

  /** There are no more pairs than `dd` tags. */
  lemma {:induction false} AdjacentPairsCount(tags: seq<Node>)
    ensures |AdjacentPairs(tags)| <= CountTag(tags, "dd")
  {
    if |tags| >= 2 {
      AdjacentPairsCount(tags[..|tags| - 1]);
    }
  }

  /** Filtering to `dt`/`dd` keeps every `dd`. */
  lemma {:induction false} SelectKeepsValues(s: seq<Node>)
    ensures CountTag(Select(s, LabelOrValue), "dd") == CountTag(s, "dd")
  {
    if s != [] {
      var prefix := s[..|s| - 1];
      SelectKeepsValues(prefix);
      var r := Select(prefix, LabelOrValue);
      if Matches(s[|s| - 1], LabelOrValue) {
        assert (r + [s[|s| - 1]])[..|r|] == r;
      }
    }
  }

  /**
   * Every key is the non-empty text of a direct `dt` child, every value
   * the text of the direct `dd` child right after it (among the `dt`/`dd`
   * children), and there are at most as many entries as `dd` children.
   */
  lemma TopBoxEntries(doc: Node, dl: Node)
    requires Find(doc, TopBoxSelector) == Some(dl)
    ensures forall e :: e in TopBoxOf(doc) ==>
      exists i :: 1 <= i < |LabelValueTags(dl)|
        && IsPair(LabelValueTags(dl)[i - 1], LabelValueTags(dl)[i])
        && e.0 == LabelValueTags(dl)[i - 1].text && e.1 == LabelValueTags(dl)[i].text
    ensures forall k :: k in Keys(TopBoxOf(doc)) ==> k != ""
    ensures |TopBoxOf(doc)| <= CountTag(dl.children, "dd")
  {
    var tags := LabelValueTags(dl);
    var ps := AdjacentPairs(tags);
    FromPairsEntries(ps);
    forall e | e in TopBoxOf(doc)
      ensures exists i :: 1 <= i < |tags| && IsPair(tags[i - 1], tags[i]) && e.0 == tags[i - 1].text && e.1 == tags[i].text
    {
      AdjacentPairsMembers(tags, e.0, e.1);
    }
    forall k | k in Keys(TopBoxOf(doc)) ensures k != "" {
      var j :| 0 <= j < |TopBoxOf(doc)| && Keys(TopBoxOf(doc))[j] == k;
      var e := TopBoxOf(doc)[j];
      assert e in TopBoxOf(doc);
      AdjacentPairsMembers(tags, e.0, e.1);
    }
    AdjacentPairsCount(tags);
    SelectKeepsValues(dl.children);
  }

  /** Looking a label up gives the value paired with its last occurrence. */
  lemma TopBoxGet(doc: Node, dl: Node, k: string)
    requires Find(doc, TopBoxSelector) == Some(dl)
    ensures Get(TopBoxOf(doc), k) == LastValue(AdjacentPairs(LabelValueTags(dl)), k)
  {
    FromPairsGet(AdjacentPairs(LabelValueTags(dl)), k);
  }

  /**
   * The state machine on three tags: of two labels in a row the later one
   * is used, a value with no pending label is dropped, and an empty label
   * pairs with nothing.
   */
  lemma PendingLabelCases(a: Node, b: Node, c: Node)
    requires a.tag == "dt" && b.tag == "dt" && c.tag == "dd"
    ensures b.text != "" ==> AdjacentPairs([a, b, c]) == [(b.text, c.text)]
    ensures b.text == "" ==> AdjacentPairs([a, b, c]) == []
    ensures AdjacentPairs([c, c]) == []
    ensures a.text != "" ==> AdjacentPairs([a, c, c]) == [(a.text, c.text)]
  {
    assert [a, b, c][..2] == [a, b] && [a, b][..1] == [a];
    assert AdjacentPairs([a, b]) == [];
    assert [a, c, c][..2] == [a, c] && [a, c][..1] == [a];
    assert AdjacentPairs([a, c]) == if a.text != "" then [(a.text, c.text)] else [];
    assert [c, c][..1] == [c];
  }
}
