/**
 * The parsed page as the scrapers see it through BeautifulSoup: an
 * immutable tree of element nodes. `text` stands for
 * `get_text(strip=True)`, which the model leaves abstract.
 */
module Dom {
  import opened Wrappers

  datatype Node = Node(
    tag: string,
    classes: seq<string>,
    id: Option<string>,
    children: seq<Node>,
    text: string)

  /** What `find`/`find_all` filter on: one of some tag names, a `class_` and an `id`. */
  datatype Selector = Selector(tags: set<string>, cls: Option<string>, id: Option<string>)

  function ByTag(tag: string): Selector {
    Selector({tag}, None, None)
  }

  /** Space-separated concatenation of a class list, as BeautifulSoup rebuilds the attribute. */
  function ClassAttribute(classes: seq<string>): string {
    if classes == [] then ""
    else if |classes| == 1 then classes[0]
    else classes[0] + " " + ClassAttribute(classes[1..])
  }

  /**
   * BeautifulSoup's `class_=c`: `c` is one of the node's classes, or the
   * whole class attribute written out (which is how `'row top-box'` matches).
   */
  predicate ClassMatches(classes: seq<string>, c: string) {
    c in classes || ClassAttribute(classes) == c
  }

  predicate Matches(n: Node, sel: Selector) {
    && n.tag in sel.tags
    && (sel.cls.Some? ==> ClassMatches(n.classes, sel.cls.value))
    && (sel.id.Some? ==> n.id == sel.id)
  }

  /** All nodes strictly below `n`, in document order (BeautifulSoup's `descendants`). */
  function Descendants(n: Node): seq<Node>
    decreases n
  {
    DescendantsOfFirst(n, |n.children|)
  }

  /** The descendants contributed by the first `k` children of `n`. */
  function DescendantsOfFirst(n: Node, k: nat): seq<Node>
    requires k <= |n.children|
    decreases n, k
  {
    if k == 0 then []
    else DescendantsOfFirst(n, k - 1) + [n.children[k - 1]] + Descendants(n.children[k - 1])
  }

  /** The nodes of `s` that match, in their order in `s`. */
  function Select(s: seq<Node>, sel: Selector): (r: seq<Node>)
    ensures |r| <= |s|
    ensures forall x :: x in r <==> x in s && Matches(x, sel)
  {
    if s == [] then []
    else
      var prefix := Select(s[..|s| - 1], sel);
      var last := s[|s| - 1];
      assert forall x :: x in s <==> x in s[..|s| - 1] || x == last;
      if Matches(last, sel) then prefix + [last] else prefix
  }

  /** `n.find_all(...)`. */
  function FindAll(n: Node, sel: Selector): (r: seq<Node>)
    ensures |r| <= |Descendants(n)|
    ensures forall x :: x in r <==> x in Descendants(n) && Matches(x, sel)
  {
    Select(Descendants(n), sel)
  }

  /** `n.find_all(..., recursive=False)`. */
  function FindChildren(n: Node, sel: Selector): (r: seq<Node>)
    ensures |r| <= |n.children|
    ensures forall x :: x in r <==> x in n.children && Matches(x, sel)
  {
    Select(n.children, sel)
  }

  /**
   * Selection keeps document order: selecting from two stretches in turn
   * gives the matches of the first stretch, then those of the second.
   */
  lemma {:induction false} SelectAppend(a: seq<Node>, b: seq<Node>, sel: Selector)
    ensures Select(a + b, sel) == Select(a, sel) + Select(b, sel)
  {
    if b != [] {
      var b' := b[..|b| - 1];
      SelectAppend(a, b', sel);
      assert (a + b)[..|a + b| - 1] == a + b';
    } else {
      assert a + b == a;
    }
  }

  /** The first element of the selection is the first element of `s` that matches. */
  lemma {:induction false} SelectFirst(s: seq<Node>, sel: Selector)
    requires Select(s, sel) != []
    ensures exists i ::
      && 0 <= i < |s| && s[i] == Select(s, sel)[0]
      && forall j :: 0 <= j < i ==> !Matches(s[j], sel)
  {
    var prefix := s[..|s| - 1];
    if Select(prefix, sel) != [] {
      SelectFirst(prefix, sel);
      var i :| 0 <= i < |prefix| && prefix[i] == Select(prefix, sel)[0]
        && forall j :: 0 <= j < i ==> !Matches(prefix[j], sel);
      assert s[i] == prefix[i];
      assert forall j :: 0 <= j < i ==> s[j] == prefix[j];
    } else {
      var i := |s| - 1;
      forall j | 0 <= j < i ensures !Matches(s[j], sel) {
        assert s[j] == prefix[j] && prefix[j] in prefix;
      }
    }
  }

  /** `n.find(...)`: the first matching descendant in document order, or None. */
  function Find(n: Node, sel: Selector): (r: Option<Node>)
    ensures r.None? <==> forall x :: x in Descendants(n) ==> !Matches(x, sel)
    ensures r.Some? ==> r.value in Descendants(n) && Matches(r.value, sel)
    ensures r.Some? ==> exists i ::
      && 0 <= i < |Descendants(n)| && Descendants(n)[i] == r.value
      && forall j :: 0 <= j < i ==> !Matches(Descendants(n)[j], sel)
  {
    var all := FindAll(n, sel);
    if all == [] then None
    else
      assert all[0] in all;
      SelectFirst(Descendants(n), sel);
      Some(all[0])
  }

  /** `[x.get_text(strip=True) for x in xs]`. */
  function Texts(xs: seq<Node>): (r: seq<string>)
    ensures |r| == |xs|
    ensures forall i :: 0 <= i < |xs| ==> r[i] == xs[i].text
  {
    seq(|xs|, i requires 0 <= i < |xs| => xs[i].text)
  }

  /** The texts of every `a` below `n`, in document order. */
  function LinkTexts(n: Node): seq<string> {
    Texts(FindAll(n, ByTag("a")))
  }

  /** Number of nodes of `xs` with tag `t`. */
  function CountTag(xs: seq<Node>, t: string): (c: nat)
    ensures c <= |xs|
  {
    if xs == [] then 0
    else CountTag(xs[..|xs| - 1], t) + (if xs[|xs| - 1].tag == t then 1 else 0)
  }
}
