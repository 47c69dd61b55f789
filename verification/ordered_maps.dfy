/** Python dictionaries: insertion-ordered, unique keys. Assigning to a key that is
    already present replaces its value in place; a new key goes to the end. */
module OrderedMaps {
  import opened Wrappers

  type Dict<K, V> = seq<(K, V)>

  function Keys<K, V>(d: Dict<K, V>): (ks: seq<K>)
    ensures |ks| == |d|
    ensures forall i :: 0 <= i < |d| ==> ks[i] == d[i].0
  {
    if |d| == 0 then [] else Keys(d[..|d| - 1]) + [d[|d| - 1].0]
  }

  function Values<K, V>(d: Dict<K, V>): (vs: seq<V>)
    ensures |vs| == |d|
    ensures forall i :: 0 <= i < |d| ==> vs[i] == d[i].1
  {
    if |d| == 0 then [] else Values(d[..|d| - 1]) + [d[|d| - 1].1]
  }

  predicate UniqueKeys<K(==), V>(d: Dict<K, V>) {
    forall i, j :: 0 <= i < j < |d| ==> d[i].0 != d[j].0
  }

  /** `d.get(k)`. */
  function Get<K(==), V>(d: Dict<K, V>, k: K): (r: Option<V>)
    ensures r.None? <==> (forall i :: 0 <= i < |d| ==> d[i].0 != k)
    ensures r.Some? ==> exists i :: 0 <= i < |d| && d[i] == (k, r.value)
  {
    if |d| == 0 then None
    else if d[|d| - 1].0 == k then Some(d[|d| - 1].1)
    else Get(d[..|d| - 1], k)
  }

  lemma GetUnique<K, V>(d: Dict<K, V>, i: nat)
    requires UniqueKeys(d) && i < |d|
    ensures Get(d, d[i].0) == Some(d[i].1)
  {
    if i < |d| - 1 {
      GetUnique(d[..|d| - 1], i);
    }
  }

  /** `d[k] = v`: a new key is appended, an existing one keeps its place and
      takes the new value. */
  function Put<K(==,!new), V>(d: Dict<K, V>, k: K, v: V): (r: Dict<K, V>)
    requires UniqueKeys(d)
    ensures UniqueKeys(r)
    ensures Get(r, k) == Some(v)
    ensures forall k' :: k' != k ==> Get(r, k') == Get(d, k')
    ensures Get(d, k).None? ==> r == d + [(k, v)]
    ensures Get(d, k).Some? ==> Keys(r) == Keys(d)
  {
    if Get(d, k).None? then d + [(k, v)]
    else
      var r := Replace(d, k, v);
      forall k' ensures Get(r, k') == if k' == k then Some(v) else Get(d, k') {
        GetReplace(d, k, v, k');
      }
      assert Keys(r) == Keys(d);
      r
  }

  /** Every pair with key `k` takes the value `v`. */
  function Replace<K(==), V>(d: Dict<K, V>, k: K, v: V): (r: Dict<K, V>)
    ensures |r| == |d|
    ensures forall i :: 0 <= i < |d| ==> r[i] == if d[i].0 == k then (k, v) else d[i]
  {
    if |d| == 0 then []
    else Replace(d[..|d| - 1], k, v) + [if d[|d| - 1].0 == k then (k, v) else d[|d| - 1]]
  }

  lemma {:induction false} GetReplace<K, V>(d: Dict<K, V>, k: K, v: V, k': K)
    ensures Get(Replace(d, k, v), k') == if k' != k then Get(d, k') else if Get(d, k).Some? then Some(v) else None
  {
    if |d| > 0 {
      GetReplace(d[..|d| - 1], k, v, k');
      assert Replace(d, k, v)[..|d| - 1] == Replace(d[..|d| - 1], k, v);
    }
  }

  /** The value of the last pair with key `k`: what a dict built from `ps` keeps for `k`. */
  function LastValue<K(==), V>(ps: seq<(K, V)>, k: K): Option<V> {
    if |ps| == 0 then None
    else if ps[|ps| - 1].0 == k then Some(ps[|ps| - 1].1)
    else LastValue(ps[..|ps| - 1], k)
  }

  /** `{k: v for k, v in ps}`, i.e. successive assignments in order. */
  function FromPairs<K(==,!new), V>(ps: seq<(K, V)>): (r: Dict<K, V>)
    ensures UniqueKeys(r)
  {
    if |ps| == 0 then [] else Put(FromPairs(ps[..|ps| - 1]), ps[|ps| - 1].0, ps[|ps| - 1].1)
  }

  /** A dict built from pairs keeps, for every key, the value of its last pair. */
  lemma {:induction false} FromPairsLastWins<K(!new), V>(ps: seq<(K, V)>, k: K)
    ensures Get(FromPairs(ps), k) == LastValue(ps, k)
  {
    if |ps| > 0 {
      FromPairsLastWins(ps[..|ps| - 1], k);
    }
  }

  /** Its keys are exactly the keys of the pairs. */
  lemma FromPairsKeys<K(!new), V>(ps: seq<(K, V)>, k: K)
    ensures Get(FromPairs(ps), k).Some? <==> exists i :: 0 <= i < |ps| && ps[i].0 == k
  {
    FromPairsLastWins(ps, k);
    LastValueSome(ps, k);
  }

  lemma {:induction false} LastValueSome<K, V>(ps: seq<(K, V)>, k: K)
    ensures LastValue(ps, k).Some? <==> exists i :: 0 <= i < |ps| && ps[i].0 == k
  {
    if |ps| > 0 {
      LastValueSome(ps[..|ps| - 1], k);
      if ps[|ps| - 1].0 != k && exists i :: 0 <= i < |ps| && ps[i].0 == k {
        var i :| 0 <= i < |ps| && ps[i].0 == k;
        assert ps[..|ps| - 1][i].0 == k;
      }
    }
  }

  /** `ps[j]` is the pair `(k, v)` and no later pair has key `k`. */
  predicate IsLastPair<K(==), V(==)>(ps: seq<(K, V)>, j: int, k: K, v: V) {
    0 <= j < |ps| && ps[j] == (k, v) && forall l :: j < l < |ps| ==> ps[l].0 != k
  }

  /** The value `LastValue` reports comes from a pair with that key after which
      no pair has the key again. */
  lemma {:induction false} LastValueIsLast<K, V>(ps: seq<(K, V)>, k: K)
    requires LastValue(ps, k).Some?
    ensures exists j :: IsLastPair(ps, j, k, LastValue(ps, k).value)
  {
    var n := |ps| - 1;
    if ps[n].0 != k {
      LastValueIsLast(ps[..n], k);
      var j :| IsLastPair(ps[..n], j, k, LastValue(ps[..n], k).value);
      assert IsLastPair(ps, j, k, LastValue(ps, k).value);
    } else {
      assert IsLastPair(ps, n, k, LastValue(ps, k).value);
    }
  }

  /** Assigning the pairs of a dict with unique keys, in order, rebuilds it. */
  lemma {:induction false} FromPairsOfUnique<K(!new), V>(d: Dict<K, V>)
    requires UniqueKeys(d)
    ensures FromPairs(d) == d
  {
    if |d| > 0 {
      var init := d[..|d| - 1];
      var last := d[|d| - 1];
      assert UniqueKeys(init) by {
        assert forall i :: 0 <= i < |init| ==> init[i] == d[i];
      }
      FromPairsOfUnique(init);
      assert Get(init, last.0).None? by {
        assert forall i :: 0 <= i < |init| ==> init[i].0 != last.0;
      }
      assert FromPairs(d) == Put(init, last.0, last.1);
      assert init + [last] == d;
    }
  }
}
