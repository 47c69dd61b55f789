/** `transit_to_py` of src/penai/client.py: the values a transit reader yields,
    turned into plain Python values. */
module Transit {
  import opened Wrappers
  import opened Values
  import opened OrderedMaps

  /** The 128-bit integer of a UUID: below 16^32, that is 2^128. */
  type U128 = n: nat | n < Pow16(32)

  /** The Python values the conversion meets: the four transit types (tagged
      values, frozen dicts, keywords, UUIDs), tuples, and the plain values it
      leaves alone. */
  datatype PyValue =
    | Tagged(tag: string, rep: PyValue)
    | FrozenDict(items: seq<Item>)
    | Keyword(name: string)
    | Tuple(elems: seq<PyValue>)
    | Uuid(value: U128)
    | Str(s: string)
    | Int(i: int)
    | Bool(b: bool)
    | NoneValue
    | List(elems: seq<PyValue>)
    | Dict(entries: Dict<PyValue, PyValue>)

  /** One key-value item of a frozen dict. */
  datatype Item = Item(key: PyValue, val: PyValue)

  /** Whether a value can be a dict key: lists and dicts cannot, a tuple can
      when all its elements can. */
  predicate Hashable(v: PyValue) {
    match v
    case List(_) => false
    case Dict(_) => false
    case Tuple(es) => forall i :: 0 <= i < |es| ==> Hashable(es[i])
    case _ => true
  }

  // ---------------------------------------------------------------------------
  // UUID.hex

  const HexAlphabet := "0123456789abcdef"

  function Pow16(k: nat): (p: nat)
    ensures p >= 1
  {
    if k == 0 then 1 else 16 * Pow16(k - 1)
  }

  /** The `k` lowest hexadecimal digits of `n`, most significant first, in lower case. */
  function HexDigits(n: nat, k: nat): (s: string)
    ensures |s| == k
    ensures forall i :: 0 <= i < k ==> s[i] in HexAlphabet
  {
    if k == 0 then [] else HexDigits(n / 16, k - 1) + [HexAlphabet[n % 16]]
  }

  function DigitValue(c: char): nat {
    if '0' <= c <= '9' then c as nat - '0' as nat
    else if 'a' <= c <= 'f' then c as nat - 'a' as nat + 10
    else 0
  }

  /** `int(s, 16)` on a string of lower-case hexadecimal digits. */
  function HexValue(s: string): nat {
    if |s| == 0 then 0 else 16 * HexValue(s[..|s| - 1]) + DigitValue(s[|s| - 1])
  }

  /** `UUID.hex`: the 128-bit integer as 32 lower-case hexadecimal digits. */
  function UuidHex(u: U128): (s: string)
    ensures |s| == 32
    ensures forall i :: 0 <= i < 32 ==> s[i] in HexAlphabet
  {
    HexDigits(u, 32)
  }

  lemma DigitRoundTrip(d: nat)
    requires d < 16
    ensures DigitValue(HexAlphabet[d]) == d
  {
  }

  lemma {:induction false} HexRoundTrip(n: nat, k: nat)
    requires n < Pow16(k)
    ensures HexValue(HexDigits(n, k)) == n
  {
    if k > 0 {
      assert n / 16 < Pow16(k - 1);
      HexRoundTrip(n / 16, k - 1);
      var s := HexDigits(n, k);
      assert s[..|s| - 1] == HexDigits(n / 16, k - 1);
      DigitRoundTrip(n % 16);
    }
  }

  /** The hex string determines the UUID: reading it back gives the integer,
      so distinct UUIDs convert to distinct strings. */
  lemma UuidHexRoundTrip(u: U128, w: U128)
    ensures HexValue(UuidHex(u)) == u
    ensures UuidHex(u) == UuidHex(w) ==> u == w
  {
    HexRoundTrip(u, 32);
    HexRoundTrip(w, 32);
  }

  // ---------------------------------------------------------------------------
  // The conversion

  /** `transit_to_py`. A converted frozen-dict key that cannot be hashed makes
      the dict comprehension raise. */
  function ToPy(v: PyValue): (r: Result<PyValue, Error>)
    ensures v.Keyword? ==> r == Success(Str(v.name))
    ensures v.Uuid? ==> r == Success(Str(UuidHex(v.value)))
    ensures v.Tagged? ==> (r.Success? <==> ToPy(v.rep).Success?)
    ensures v.Tagged? && r.Success? ==> r.value == Dict([(Str(v.tag), ToPy(v.rep).value)])
    ensures v.Tuple? ==> (r.Success? <==> forall i :: 0 <= i < |v.elems| ==> ToPy(v.elems[i]).Success?)
    ensures v.Tuple? && r.Success? ==>
      r.value.Tuple? && |r.value.elems| == |v.elems| &&
      forall i :: 0 <= i < |v.elems| ==> Success(r.value.elems[i]) == ToPy(v.elems[i])
    ensures v.FrozenDict? ==> (r.Success? <==> ToPyPairs(v.items).Success?)
    ensures v.FrozenDict? && r.Success? ==> r.value == Dict(FromPairs(ToPyPairs(v.items).value))
    ensures v.Str? || v.Int? || v.Bool? || v.NoneValue? || v.List? || v.Dict? ==> r == Success(v)
    decreases v, 1
  {
    match v
    case Tagged(tag, rep) =>
      var x :- ToPy(rep);
      Success(Dict([(Str(tag), x)]))
    case FrozenDict(items) =>
      var ps :- ToPyPairs(items);
      Success(Dict(FromPairs(ps)))
    case Keyword(name) => Success(Str(name))
    case Tuple(es) =>
      var xs :- ToPySeq(es);
      Success(Tuple(xs))
    case Uuid(u) => Success(Str(UuidHex(u)))
    case _ => Success(v)
  }

  /** The elements of a tuple, converted one by one; the first failure stops it. */
  function ToPySeq(es: seq<PyValue>): (r: Result<seq<PyValue>, Error>)
    ensures r.Success? <==> forall i :: 0 <= i < |es| ==> ToPy(es[i]).Success?
    ensures r.Success? ==> |r.value| == |es| && forall i :: 0 <= i < |es| ==> Success(r.value[i]) == ToPy(es[i])
    decreases es, 0
  {
    if |es| == 0 then Success([])
    else
      Behead(es);
      var x :- ToPy(es[0]);
      var xs :- ToPySeq(es[1..]);
      Success([x] + xs)
  }

  /** The items of a frozen dict converted in turn; the first failure stops it. */
  function ToPyPairs(items: seq<Item>): (r: Result<seq<(PyValue, PyValue)>, Error>)
    ensures r.Success? <==> forall i :: 0 <= i < |items| ==> ToPyItem(items[i]).Success?
    ensures r.Success? ==> |r.value| == |items|
    ensures r.Success? ==> forall i :: 0 <= i < |items| ==> ToPyItem(items[i]) == Success(r.value[i])
    decreases items, 0
  {
    if |items| == 0 then Success([])
    else
      Behead(items);
      var p :- ToPyItem(items[0]);
      var rest :- ToPyPairs(items[1..]);
      Success([p] + rest)
  }

  /** Element `i` of the tail is element `i + 1` of the sequence. */
  lemma Behead<T>(s: seq<T>)
    requires |s| > 0
    ensures forall i :: 0 < i < |s| ==> s[i] == s[1..][i - 1]
  {
  }

  /** One item of the comprehension: the key is converted, then the value, and
      the key is hashed when the pair is stored. */
  function ToPyItem(item: Item): (r: Result<(PyValue, PyValue), Error>)
    ensures r.Success? <==> ToPy(item.key).Success? && ToPy(item.val).Success? && Hashable(ToPy(item.key).value)
    ensures r.Success? ==> r.value == (ToPy(item.key).value, ToPy(item.val).value)
    ensures ToPy(item.key).Success? && ToPy(item.val).Success? && !Hashable(ToPy(item.key).value) ==> r == Failure(Unhashable)
    decreases item, 2
  {
    var k :- ToPy(item.key);
    var x :- ToPy(item.val);
    if !Hashable(k) then Failure(Unhashable) else Success((k, x))
  }

  /** In a converted frozen dict, every converted key holds the converted value
      of the last item whose key converts to it, and no other key is present. */
  lemma FrozenDictLastWins(items: seq<Item>, k: PyValue)
    requires ToPy(FrozenDict(items)).Success?
    ensures var d := ToPy(FrozenDict(items)).value.entries;
      && (Get(d, k).Some? <==> exists i :: 0 <= i < |items| && ToPy(items[i].key) == Success(k))
      && (Get(d, k).Some? ==> exists j :: LastConvertedKey(items, j, k) && ToPy(items[j].val) == Success(Get(d, k).value))
  {
    var ps := ToPyPairs(items).value;
    FromPairsLastWins(ps, k);
    LastValueSome(ps, k);
    if exists i :: 0 <= i < |items| && ToPy(items[i].key) == Success(k) {
      var i :| 0 <= i < |items| && ToPy(items[i].key) == Success(k);
      assert ToPyItem(items[i]) == Success(ps[i]);
      assert ps[i].0 == k;
    }
    if LastValue(ps, k).Some? {
      LastValueIsLast(ps, k);
      var j :| IsLastPair(ps, j, k, LastValue(ps, k).value);
      assert forall l :: 0 <= l < |items| ==> ToPy(items[l].key) == Success(ps[l].0);
      assert LastConvertedKey(items, j, k);
    }
  }

  /** Item `j` is the last one whose key converts to `k`. */
  predicate LastConvertedKey(items: seq<Item>, j: int, k: PyValue) {
    0 <= j < |items| && ToPy(items[j].key) == Success(k) &&
    forall l :: j < l < |items| ==> ToPy(items[l].key) != Success(k)
  }

  /** Colliding converted keys: a keyword and the string of its name become the
      same key, and the later item's value is kept. */
  lemma CollidingKeysKeepLast()
    ensures ToPy(FrozenDict([Item(Keyword("a"), Int(1)), Item(Str("a"), Int(2))])) == Success(Dict([(Str("a"), Int(2))]))
  {
    var items := [Item(Keyword("a"), Int(1)), Item(Str("a"), Int(2))];
    assert ToPyItem(items[0]) == Success((Str("a"), Int(1)));
    assert ToPyItem(items[1]) == Success((Str("a"), Int(2)));
    var r := ToPyPairs(items);
    assert r.Success?;
    assert r.value == [(Str("a"), Int(1)), (Str("a"), Int(2))];
    var ps := [(Str("a"), Int(1)), (Str("a"), Int(2))];
    assert ps[..1] == [(Str("a"), Int(1))];
    assert FromPairs(ps[..1]) == [(Str("a"), Int(1))];
    assert FromPairs(ps) == Put([(Str("a"), Int(1))], Str("a"), Int(2));
    assert [(Str("a"), Int(1))][..0] == [];
    assert Put([(Str("a"), Int(1))], Str("a"), Int(2)) == [(Str("a"), Int(2))];
  }

  /** A tagged value used as a frozen-dict key converts to a dict, which
      cannot be a key: the whole conversion raises. */
  lemma TaggedKeyIsUnhashable()
    ensures ToPy(FrozenDict([Item(Tagged("t", Int(1)), Int(2))])) == Failure(Unhashable)
  {
    var items := [Item(Tagged("t", Int(1)), Int(2))];
    assert ToPyItem(items[0]) == Failure(Unhashable);
  }

  /** A value that can come out of the conversion. */
  predicate Converted(v: PyValue) {
    match v
    case Tagged(_, _) => false
    case FrozenDict(_) => false
    case Keyword(_) => false
    case Uuid(_) => false
    case Tuple(es) => forall i :: 0 <= i < |es| ==> Converted(es[i])
    case _ => true
  }

  /** Every result is made of plain values only at the levels the conversion
      reaches, and converting it again changes nothing. */
  lemma {:induction false} ToPyIdempotent(v: PyValue)
    requires ToPy(v).Success?
    ensures Converted(ToPy(v).value)
    ensures ToPy(ToPy(v).value) == ToPy(v)
  {
    var r := ToPy(v).value;
    match v
    case Tuple(es) =>
      forall i | 0 <= i < |es|
        ensures Converted(r.elems[i]) && ToPy(r.elems[i]) == Success(r.elems[i])
      {
        ToPyIdempotent(es[i]);
      }
      var t := ToPySeq(r.elems);
      assert t.Success?;
      assert t.value == r.elems;
    case _ =>
  }
}
