/** String helpers that stand for Python `str` built-ins. */
module Strings {

  /** Python's `sep.join(xs)`. */
  function Join(xs: seq<string>, sep: string): (r: string)
    ensures xs == [] ==> r == ""
    ensures |xs| == 1 ==> r == xs[0]
  {
    if xs == [] then ""
    else if |xs| == 1 then xs[0]
    else xs[0] + sep + Join(xs[1..], sep)
  }

  /** Python's `s.split(c)` for a one-character separator: never empty. */
  function Split(s: string, c: char): (r: seq<string>)
    ensures |r| >= 1
  {
    if s == [] then [""]
    else
      var rest := Split(s[1..], c);
      if s[0] == c then [""] + rest else [[s[0]] + rest[0]] + rest[1..]
  }

  /** Removes one leading blank, if there is one. */
  function DropOneBlank(s: string): (r: string)
    ensures r == s || (s != [] && s[0] == ' ' && r == s[1..])
  {
    if s != [] && s[0] == ' ' then s[1..] else s
  }

  /**
   * Reads a `"; "`-joined list back: split on `;` and drop the blank the
   * separator put in front of every piece but the first.
   */
  function SplitJoined(s: string): (r: seq<string>)
    ensures |r| >= 1
  {
    var pieces := Split(s, ';');
    [pieces[0]] + seq(|pieces| - 1, i requires 0 <= i < |pieces| - 1 => DropOneBlank(pieces[i + 1]))
  }

  lemma {:induction false} SplitNoSeparator(a: string, c: char)
    requires c !in a
    ensures Split(a, c) == [a]
  {
    if a != [] {
      SplitNoSeparator(a[1..], c);
      assert [a[0]] + a[1..] == a;
    }
  }

  lemma {:induction false} SplitAtSeparator(a: string, c: char, b: string)
    requires c !in a
    ensures Split(a + [c] + b, c) == [a] + Split(b, c)
  {
    if a == [] {
      assert a + [c] + b == [c] + b;
      assert ([c] + b)[1..] == b;
    } else {
      assert (a + [c] + b)[1..] == a[1..] + [c] + b;
      SplitAtSeparator(a[1..], c, b);
      assert [a[0]] + a[1..] == a;
    }
  }

  /** The pieces of `Join(xs, "; ")` split on `;` are the items, each but the first behind one blank. */
  lemma {:induction false} SplitOfJoin(xs: seq<string>)
    requires xs != []
    requires forall i :: 0 <= i < |xs| ==> ';' !in xs[i]
    ensures Split(Join(xs, "; "), ';') == [xs[0]] + seq(|xs| - 1, i requires 0 <= i < |xs| - 1 => " " + xs[i + 1])
  {
    if |xs| == 1 {
      SplitNoSeparator(xs[0], ';');
    } else {
      SplitOfJoin(xs[1..]);
      var tail := Join(xs[1..], "; ");
      assert Join(xs, "; ") == xs[0] + [';'] + (" " + tail);
      SplitAtSeparator(xs[0], ';', " " + tail);
      var inner := Split(tail, ';');
      assert Split(" " + tail, ';') == [" " + inner[0]] + inner[1..];
    }
  }

  /**
   * The Committees join is reversible: reading the joined string back gives
   * the original committee names in their original order, provided no name
   * contains a semicolon.
   */
  lemma {:induction false} JoinRoundTrip(xs: seq<string>)
    requires xs != []
    requires forall i :: 0 <= i < |xs| ==> ';' !in xs[i]
    ensures SplitJoined(Join(xs, "; ")) == xs
  {
    SplitOfJoin(xs);
    var pieces := Split(Join(xs, "; "), ';');
    assert |pieces| == |xs|;
    var r := SplitJoined(Join(xs, "; "));
    assert |r| == |xs|;
    forall i | 0 <= i < |xs| ensures r[i] == xs[i] {
      if i > 0 {
        assert pieces[i] == " " + xs[i];
        assert r[i] == DropOneBlank(pieces[i]);
        assert (" " + xs[i])[1..] == xs[i];
      }
    }
  }

  /** The characters of `s` other than the blank, in order. */
  function NonBlank(s: string): (r: string)
    ensures |r| <= |s|
    ensures ' ' !in r
  {
    if s == [] then ""
    else if s[0] == ' ' then NonBlank(s[1..])
    else [s[0]] + NonBlank(s[1..])
  }

  lemma {:induction false} NonBlankAppend(a: string, b: string)
    ensures NonBlank(a + b) == NonBlank(a) + NonBlank(b)
  {
    if a == [] {
      assert a + b == b;
    } else {
      assert (a + b)[1..] == a[1..] + b;
      NonBlankAppend(a[1..], b);
    }
  }

  /** No two blanks stand next to each other. */
  predicate NoDoubleBlank(s: string) {
    forall j :: 0 <= j < |s| - 1 ==> !(s[j] == ' ' && s[j + 1] == ' ')
  }
}
