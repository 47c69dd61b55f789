/** `apply_func_to_nested_keys` of src/penai/utils/dict.py: a function applied
    to every key of a dict and, recursively, of every dict nested in its values. */
module NestedKeys {
  import opened Wrappers
  import opened OrderedMaps

  /** A dict value: either a nested dict or any other value. */
  datatype Nested<K, V> = Leaf(value: V) | Branch(entries: seq<(K, Nested<K, V>)>)

  /** `apply_func_to_nested_keys`: each key is replaced by its image, nested
      dicts are rebuilt the same way, other values are carried over. */
  function MapKeys<K(==,!new), V>(entries: seq<(K, Nested<K, V>)>, f: K -> K): (r: Dict<K, Nested<K, V>>)
    ensures UniqueKeys(r)
    decreases entries, 1
  {
    FromPairs(MapEntries(entries, f))
  }

  /** The assignments the loop makes, in order. */
  function MapEntries<K(==,!new), V>(entries: seq<(K, Nested<K, V>)>, f: K -> K): (r: seq<(K, Nested<K, V>)>)
    ensures |r| == |entries|
    ensures forall i :: 0 <= i < |entries| ==> r[i] == MapEntry(entries[i], f)
    decreases entries, 0
  {
    if |entries| == 0 then []
    else
      assert forall i :: 0 < i < |entries| ==> entries[i] == entries[1..][i - 1];
      [MapEntry(entries[0], f)] + MapEntries(entries[1..], f)
  }

  /** One assignment: the new key, and the value rebuilt if it is a dict. */
  function MapEntry<K(==,!new), V>(e: (K, Nested<K, V>), f: K -> K): (r: (K, Nested<K, V>))
    ensures r.0 == f(e.0)
    ensures e.1.Leaf? ==> r.1 == e.1
    ensures e.1.Branch? ==> r.1.Branch?
    decreases e, 2
  {
    match e.1
    case Leaf(_) => (f(e.0), e.1)
    case Branch(inner) => (f(e.0), Branch(MapKeys(inner, f)))
  }

  /** Entry `j` is the last whose key maps to `k`. */
  predicate LastMappedKey<K(==), V>(entries: seq<(K, Nested<K, V>)>, f: K -> K, j: int, k: K) {
    0 <= j < |entries| && f(entries[j].0) == k &&
    forall l :: j < l < |entries| ==> f(entries[l].0) != k
  }

  /** The result has a key exactly for each image of an original key; it holds
      the value of the last entry whose key maps there, rebuilt when it is a
      dict and unchanged otherwise. */
  lemma MapKeysLastWins<K(!new), V>(entries: seq<(K, Nested<K, V>)>, f: K -> K, k: K)
    ensures Get(MapKeys(entries, f), k).Some? <==> exists i :: 0 <= i < |entries| && f(entries[i].0) == k
    ensures Get(MapKeys(entries, f), k).Some? ==>
      exists j :: LastMappedKey(entries, f, j, k) && Get(MapKeys(entries, f), k).value == MapEntry(entries[j], f).1
  {
    var ps := MapEntries(entries, f);
    FromPairsLastWins(ps, k);
    LastValueSome(ps, k);
    if exists i :: 0 <= i < |entries| && f(entries[i].0) == k {
      var i :| 0 <= i < |entries| && f(entries[i].0) == k;
      assert ps[i].0 == k;
    }
    if LastValue(ps, k).Some? {
      LastValueIsLast(ps, k);
      var j :| IsLastPair(ps, j, k, LastValue(ps, k).value);
      assert LastMappedKey(entries, f, j, k);
    }
  }

  /** Two keys that map to the same key: the later entry's value is kept. */
  lemma CollisionKeepsLater<V>(a: V, b: V)
    ensures MapKeys([(1, Leaf(a)), (2, Leaf(b))], (k: int) => 0) == [(0, Leaf(b))]
  {
    var f := (k: int) => 0;
    var ps := MapEntries([(1, Leaf(a)), (2, Leaf(b))], f);
    assert ps == [(0, Leaf(a)), (0, Leaf(b))];
    assert ps[..1] == [(0, Leaf(a))];
    assert FromPairs(ps[..1]) == [(0, Leaf(a))];
    var first: seq<(int, Nested<int, V>)> := [(0, Leaf(a))];
    assert first[..0] == [];
  }

  /** Every dict, at every level, has unique keys. */
  predicate WellFormed<K(==), V>(entries: seq<(K, Nested<K, V>)>)
    decreases entries, 1
  {
    UniqueKeys(entries) && forall i :: 0 <= i < |entries| ==> WellFormedEntry(entries[i])
  }

  predicate WellFormedEntry<K(==), V>(e: (K, Nested<K, V>))
    decreases e, 0
  {
    match e.1
    case Leaf(_) => true
    case Branch(inner) => WellFormed(inner)
  }

  function Max(a: nat, b: nat): nat {
    if a >= b then a else b
  }

  /** How deep dicts nest: a dict of leaves, or an empty one, has depth 1. */
  function Depth<K, V>(entries: seq<(K, Nested<K, V>)>): (d: nat)
    ensures d >= 1
    decreases entries, 1
  {
    if |entries| == 0 then 1 else Max(EntryDepth(entries[0]), Depth(entries[1..]))
  }

  function EntryDepth<K, V>(e: (K, Nested<K, V>)): (d: nat)
    ensures d >= 1
    decreases e, 0
  {
    match e.1
    case Leaf(_) => 1
    case Branch(inner) => Depth(inner) + 1
  }

  /** Mapping with the identity gives back any well-formed dict unchanged. */
  lemma {:induction false} IdentityKeepsDict<K(!new), V>(entries: seq<(K, Nested<K, V>)>)
    requires WellFormed(entries)
    ensures MapKeys(entries, (k: K) => k) == entries
    decreases entries, 1
  {
    var ps := MapEntries(entries, (k: K) => k);
    forall i | 0 <= i < |entries|
      ensures ps[i] == entries[i]
    {
      IdentityKeepsEntry(entries[i]);
    }
    assert ps == entries;
    FromPairsOfUnique(entries);
  }

  lemma {:induction false} IdentityKeepsEntry<K(!new), V>(e: (K, Nested<K, V>))
    requires WellFormedEntry(e)
    ensures MapEntry(e, (k: K) => k) == e
    decreases e, 0
  {
    match e.1
    case Leaf(_) =>
    case Branch(inner) => IdentityKeepsDict(inner);
  }

  /** With an injective key function nothing collides, so the result has an
      entry per entry and nests exactly as deep as the original. */
  lemma {:induction false} InjectiveKeepsDepth<K(!new), V>(entries: seq<(K, Nested<K, V>)>, f: K -> K)
    requires forall a, b :: f(a) == f(b) ==> a == b
    requires WellFormed(entries)
    ensures |MapKeys(entries, f)| == |entries|
    ensures Depth(MapKeys(entries, f)) == Depth(entries)
    decreases entries, 2
  {
    var ps := MapEntries(entries, f);
    assert UniqueKeys(ps) by {
      forall i, j | 0 <= i < j < |ps|
        ensures ps[i].0 != ps[j].0
      {
        assert entries[i].0 != entries[j].0;
      }
    }
    FromPairsOfUnique(ps);
    DepthOfMapped(entries, f);
  }

  lemma {:induction false} DepthOfMapped<K(!new), V>(entries: seq<(K, Nested<K, V>)>, f: K -> K)
    requires forall a, b :: f(a) == f(b) ==> a == b
    requires WellFormed(entries)
    ensures Depth(MapEntries(entries, f)) == Depth(entries)
    decreases entries, 1
  {
    if |entries| > 0 {
      var ps := MapEntries(entries, f);
      assert WellFormed(entries[1..]) by {
        assert forall i :: 0 <= i < |entries[1..]| ==> entries[1..][i] == entries[i + 1];
      }
      DepthOfMapped(entries[1..], f);
      assert ps[1..] == MapEntries(entries[1..], f);
      EntryDepthOfMapped(entries[0], f);
    }
  }

  lemma {:induction false} EntryDepthOfMapped<K(!new), V>(e: (K, Nested<K, V>), f: K -> K)
    requires forall a, b :: f(a) == f(b) ==> a == b
    requires WellFormedEntry(e)
    ensures EntryDepth(MapEntry(e, f)) == EntryDepth(e)
    decreases e, 0
  {
    match e.1
    case Leaf(_) =>
    case Branch(inner) => InjectiveKeepsDepth(inner, f);
  }
}
