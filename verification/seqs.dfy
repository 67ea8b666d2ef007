/** Sequence helpers shared by the extractors. */
module Seqs {
  import opened Wrappers

  /** The results `f` gives for the elements of `xs`, in order, skipping `None`. */
  function FilterMap<T, U>(xs: seq<T>, f: T -> Option<U>): (r: seq<U>)
    ensures |r| <= |xs|
  {
    if xs == [] then []
    else
      var prefix := FilterMap(xs[..|xs| - 1], f);
      match f(xs[|xs| - 1])
      case None => prefix
      case Some(y) => prefix + [y]
  }

  lemma FilterMapStep<T, U>(xs: seq<T>, f: T -> Option<U>, i: nat)
    requires i < |xs|
    ensures FilterMap(xs[..i + 1], f)
         == match f(xs[i]) case None => FilterMap(xs[..i], f) case Some(y) => FilterMap(xs[..i], f) + [y]
  {
    assert xs[..i + 1][..i] == xs[..i];
  }

  /** An element of the result is exactly what `f` gives for some element of `xs`. */
  lemma {:induction false} FilterMapMembers<T, U>(xs: seq<T>, f: T -> Option<U>, y: U)
    ensures y in FilterMap(xs, f) <==> exists i :: 0 <= i < |xs| && f(xs[i]) == Some(y)
  {
    if xs != [] {
      var n := |xs|;
      var prefix := xs[..n - 1];
      FilterMapMembers(prefix, f, y);
      if y in FilterMap(xs, f) && y !in FilterMap(prefix, f) {
        assert f(xs[n - 1]) == Some(y);
      }
      if exists i :: 0 <= i < n && f(xs[i]) == Some(y) {
        var i :| 0 <= i < n && f(xs[i]) == Some(y);
        if i < n - 1 {
          assert prefix[i] == xs[i];
        }
      }
    }
  }

  /** `writer.writerow(header)` followed by `writer.writerow(item)` for each item: the rows written. */
  method EmitRows<T>(header: T, items: seq<T>) returns (rows: seq<T>)
    ensures rows == [header] + items
  {
    rows := [header];
    for i := 0 to |items|
      invariant rows == [header] + items[..i]
    {
      rows := rows + [items[i]];
    }
    assert items[..|items|] == items;
  }
}
