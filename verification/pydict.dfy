/**
 * Python's `dict` with string keys, as the scrapers use it: an ordered list
 * of entries. Assigning to a key that is present replaces its value in
 * place; assigning to a new key appends an entry, so iteration follows the
 * order in which keys were first inserted.
 */
module PyDict {
  import opened Wrappers

  type Dict<V> = seq<(string, V)>

  /** The keys in iteration order (`list(d)`). */
  function Keys<V>(d: Dict<V>): (ks: seq<string>)
    ensures |ks| == |d|
    ensures forall i :: 0 <= i < |d| ==> ks[i] == d[i].0
  {
    seq(|d|, i requires 0 <= i < |d| => d[i].0)
  }

  /** No key occurs twice. */
  predicate Valid<V>(d: Dict<V>) {
    forall i, j :: 0 <= i < j < |d| ==> d[i].0 != d[j].0
  }

  /** The position of the first entry with key `k`, or -1. */
  function IndexOf<V>(d: Dict<V>, k: string): (i: int)
    ensures -1 <= i < |d|
    ensures i >= 0 ==> d[i].0 == k
    ensures forall j :: 0 <= j < |d| && (i < 0 || j < i) ==> d[j].0 != k
  {
    if d == [] then -1
    else if d[|d| - 1].0 == k && IndexOf(d[..|d| - 1], k) < 0 then |d| - 1
    else IndexOf(d[..|d| - 1], k)
  }

  lemma KeysIndex<V>(d: Dict<V>, k: string)
    ensures k in Keys(d) <==> IndexOf(d, k) >= 0
  {
    if IndexOf(d, k) >= 0 {
      assert Keys(d)[IndexOf(d, k)] == k;
    }
  }

  /** `d.get(k)`. */
  function Get<V>(d: Dict<V>, k: string): (r: Option<V>)
    ensures r.None? <==> k !in Keys(d)
    ensures r.Some? ==> (k, r.value) in d
  {
    KeysIndex(d, k);
    var i := IndexOf(d, k);
    if i < 0 then None else Some(d[i].1)
  }

  /** In a dict without repeated keys, an entry is what `get` finds. */
  lemma ValidGet<V>(d: Dict<V>, k: string, v: V)
    requires Valid(d) && (k, v) in d
    ensures Get(d, k) == Some(v)
  {
    KeysIndex(d, k);
    var i :| 0 <= i < |d| && d[i] == (k, v);
    assert Keys(d)[i] == k;
  }

  /** `d.get(k, default)`. */
  function GetOr<V>(d: Dict<V>, k: string, default: V): (r: V)
    ensures k !in Keys(d) ==> r == default
    ensures k in Keys(d) ==> (k, r) in d
  {
    Get(d, k).GetOr(default)
  }

  /** `d[k] = v`. */
  function Set<V>(d: Dict<V>, k: string, v: V): (r: Dict<V>)
    ensures Keys(r) == if k in Keys(d) then Keys(d) else Keys(d) + [k]
    ensures Get(r, k) == Some(v)
    ensures forall k' :: k' != k ==> Get(r, k') == Get(d, k')
    ensures forall i :: 0 <= i < |d| && d[i].0 != k ==> r[i] == d[i]
    ensures forall e :: e in r ==> e in d || e == (k, v)
    ensures Valid(d) ==> Valid(r)
  {
    KeysIndex(d, k);
    var i := IndexOf(d, k);
    if i < 0 then
      AppendIndex(d, k, v);
      AppendValid(d, k, v);
      AppendKeys(d, k, v);
      d + [(k, v)]
    else
      UpdateIndex(d, k, v, i);
      UpdateValid(d, k, v, i);
      UpdateKeys(d, k, v, i);
      d[i := (k, v)]
  }

  lemma AppendIndex<V>(d: Dict<V>, k: string, v: V)
    requires IndexOf(d, k) < 0
    ensures forall k' :: IndexOf(d + [(k, v)], k') == if k' == k then |d| else IndexOf(d, k')
  {
    var r := d + [(k, v)];
    forall k' ensures IndexOf(r, k') == if k' == k then |d| else IndexOf(d, k') {
      IndexOfUnique(r, k', if k' == k then |d| else IndexOf(d, k'));
    }
  }

  lemma AppendValid<V>(d: Dict<V>, k: string, v: V)
    requires IndexOf(d, k) < 0
    ensures Valid(d) ==> Valid(d + [(k, v)])
  {
  }

  lemma AppendKeys<V>(d: Dict<V>, k: string, v: V)
    ensures Keys(d + [(k, v)]) == Keys(d) + [k]
  {
  }

  lemma UpdateKeys<V>(d: Dict<V>, k: string, v: V, i: nat)
    requires i < |d| && d[i].0 == k
    ensures Keys(d[i := (k, v)]) == Keys(d)
    ensures forall e :: e in d[i := (k, v)] ==> e in d || e == (k, v)
  {
  }

  lemma UpdateIndex<V>(d: Dict<V>, k: string, v: V, i: nat)
    requires i < |d| && IndexOf(d, k) == i
    ensures forall k' :: IndexOf(d[i := (k, v)], k') == IndexOf(d, k')
  {
    var r := d[i := (k, v)];
    forall k' ensures IndexOf(r, k') == IndexOf(d, k') {
      IndexOfUnique(r, k', IndexOf(d, k'));
    }
  }

  lemma UpdateValid<V>(d: Dict<V>, k: string, v: V, i: nat)
    requires i < |d| && IndexOf(d, k) == i
    ensures Valid(d) ==> Valid(d[i := (k, v)])
  {
  }

  /** The facts that determine `IndexOf` also characterise it. */
  lemma IndexOfUnique<V>(d: Dict<V>, k: string, i: int)
    requires -1 <= i < |d|
    requires i >= 0 ==> d[i].0 == k
    requires forall j :: 0 <= j < |d| && (i < 0 || j < i) ==> d[j].0 != k
    ensures IndexOf(d, k) == i
  {
  }

  /** A dict filled by assigning the pairs of `ps` one after another. */
  function FromPairs<V>(ps: seq<(string, V)>): (r: Dict<V>)
    ensures Valid(r)
    ensures |r| <= |ps|
  {
    if ps == [] then []
    else
      var last := ps[|ps| - 1];
      Set(FromPairs(ps[..|ps| - 1]), last.0, last.1)
  }

  /** Assigning the pairs one by one: the next pair is one more `d[k] = v`. */
  lemma FromPairsPrefixStep<V>(ps: seq<(string, V)>, i: nat)
    requires i < |ps|
    ensures FromPairs(ps[..i + 1]) == Set(FromPairs(ps[..i]), ps[i].0, ps[i].1)
  {
    assert ps[..i + 1][..i] == ps[..i];
  }

  /** The value of the last pair of `ps` whose key is `k`. */
  function LastValue<V>(ps: seq<(string, V)>, k: string): (r: Option<V>)
    ensures r.None? <==> k !in Keys(ps)
    ensures r.Some? ==> (k, r.value) in ps
  {
    if ps == [] then None
    else if ps[|ps| - 1].0 == k then Some(ps[|ps| - 1].1)
    else LastValue(ps[..|ps| - 1], k)
  }

  /** `ks` with every repetition of an earlier element removed. */
  function FirstOccurrences(ks: seq<string>): (r: seq<string>)
    ensures forall k :: k in r <==> k in ks
  {
    if ks == [] then []
    else
      var prefix := FirstOccurrences(ks[..|ks| - 1]);
      var k := ks[|ks| - 1];
      assert forall x :: x in ks <==> x in ks[..|ks| - 1] || x == k;
      if k in ks[..|ks| - 1] then prefix else prefix + [k]
  }

  lemma KeysPrefix<V>(ps: seq<(string, V)>)
    requires ps != []
    ensures Keys(ps) == Keys(ps[..|ps| - 1]) + [ps[|ps| - 1].0]
  {
  }

  /** Looking a key up after assigning all pairs gives the last value assigned to it. */
  lemma {:induction false} FromPairsGet<V>(ps: seq<(string, V)>, k: string)
    ensures Get(FromPairs(ps), k) == LastValue(ps, k)
  {
    if ps != [] {
      FromPairsGet(ps[..|ps| - 1], k);
    }
  }

  /** The keys come out in the order in which they were first assigned. */
  lemma {:induction false} FromPairsKeys<V>(ps: seq<(string, V)>)
    ensures Keys(FromPairs(ps)) == FirstOccurrences(Keys(ps))
  {
    if ps != [] {
      var prefix := ps[..|ps| - 1];
      FromPairsKeys(prefix);
      KeysPrefix(ps);
      assert Keys(ps)[..|ps| - 1] == Keys(prefix);
    }
  }

  /** Every entry of the dict is one of the assigned pairs. */
  lemma {:induction false} FromPairsEntries<V>(ps: seq<(string, V)>)
    ensures forall e :: e in FromPairs(ps) ==> e in ps
  {
    if ps != [] {
      FromPairsEntries(ps[..|ps| - 1]);
    }
  }
}
