/** The namespace-aware element tree (`BetterElement` in src/penai/xml.py) as an
    immutable value: every element has a namespace URI, a local name, the prefix
    it was written with, the in-scope namespace map, qualified attributes and
    ordered children. Elements inside a document are addressed by their path of
    child indices from the root. */
module Xml {
  import opened Wrappers
  import opened Values

  /** lxml's `nsmap`: prefix (None for the default namespace) to URI. */
  type NsMap = map<Option<string>, string>

  datatype Node = Node(
    ns: Option<string>,
    localname: string,
    prefix: Option<string>,
    nsmap: NsMap,
    attrs: map<string, AttrValue>,
    children: seq<Node>)

  type Path = seq<nat>

  /** lxml's `{uri}local` spelling of a qualified tag or attribute key. */
  function QualifiedName(uri: Option<string>, local: string): string {
    match uri
    case None => local
    case Some(u) => "{" + u + "}" + local
  }

  function Tag(n: Node): string {
    QualifiedName(n.ns, n.localname)
  }

  /** `etree.QName(tag).localname`: whatever follows the closing brace of a
      `{uri}` part, or the whole tag when there is none. */
  function LocalNameOfTag(tag: string): string {
    if |tag| > 0 && tag[0] == '{' then AfterBrace(tag[1..]) else tag
  }

  function AfterBrace(s: string): (r: string)
    ensures |r| <= |s|
  {
    if |s| == 0 then s
    else if s[0] == '}' then s[1..]
    else AfterBrace(s[1..])
  }

  /** The local name is recovered from a qualified tag whenever the URI holds no
      closing brace (and an unqualified name does not start with an opening one). */
  lemma {:induction false} LocalNameOfQualified(uri: Option<string>, local: string)
    requires uri.Some? ==> '}' !in uri.value
    requires uri.None? ==> |local| == 0 || local[0] != '{'
    ensures LocalNameOfTag(QualifiedName(uri, local)) == local
  {
    if uri.Some? {
      var u := uri.value;
      assert QualifiedName(uri, local)[1..] == u + "}" + local;
      AfterBraceSkips(u, local);
    }
  }

  lemma {:induction false} AfterBraceSkips(u: string, rest: string)
    requires '}' !in u
    ensures AfterBrace(u + "}" + rest) == rest
  {
    if |u| == 0 {
      assert (u + "}" + rest)[1..] == rest;
    } else {
      assert (u + "}" + rest)[1..] == u[1..] + "}" + rest;
      AfterBraceSkips(u[1..], rest);
    }
  }

  /** `get_namespaced_key(namespace, key)`; the one-argument form passes `None`. */
  function NamespacedKey(nsmap: NsMap, namespace: Option<string>, key: string): (r: Result<string, Error>)
    ensures |nsmap| == 0 && namespace.None? ==> r == Success(key)
    ensures (|nsmap| > 0 || namespace.Some?) && namespace in nsmap && nsmap[namespace] != "" ==>
      r == Success("{" + nsmap[namespace] + "}" + key)
    ensures (|nsmap| > 0 || namespace.Some?) && (namespace !in nsmap || nsmap[namespace] == "") ==>
      r == Failure(UnknownNamespace(namespace, nsmap.Keys))
  {
    if |nsmap| == 0 && namespace.None? then Success(key)
    else if namespace !in nsmap || nsmap[namespace] == "" then Failure(UnknownNamespace(namespace, nsmap.Keys))
    else Success(QualifiedName(Some(nsmap[namespace]), key))
  }

  /** `query_compatible_nsmap`: the nsmap re-keyed for lxml queries, the default
      namespace moving from key None to key "". */
  function QueryCompatibleNsmap(nsmap: NsMap): (r: Result<map<string, string>, Error>)
    ensures None !in nsmap <==> r == Failure(MissingDefaultNamespace)
    ensures r.Success? ==> "" in r.value && r.value[""] == nsmap[None]
    ensures r.Success? ==> forall p :: p != "" ==> (p in r.value <==> Some(p) in nsmap)
    ensures r.Success? ==> forall p :: p != "" && p in r.value ==> r.value[p] == nsmap[Some(p)]
  {
    if None !in nsmap then Failure(MissingDefaultNamespace)
    else Success((map k | k in nsmap && k.Some? :: k.value := nsmap[k])[("") := nsmap[None]])
  }

  /** An element's namespace state as lxml queries see it: its nsmap and the
      memoised `query_compatible_nsmap` (a `cached_property`, so one shared dict). */
  datatype QueryState = QueryState(nsmap: NsMap, cache: Option<map<string, string>>)

  /** Reads `query_compatible_nsmap`, filling the cache on first use. */
  function CachedQueryNsmap(st: QueryState): (r: Result<(map<string, string>, QueryState), Error>)
    ensures st.cache.Some? ==> r == Success((st.cache.value, st))
    ensures st.cache.None? && r.Success? ==>
      Success(r.value.0) == QueryCompatibleNsmap(st.nsmap) && r.value.1.cache == Some(r.value.0)
    ensures st.cache.None? ==> (r.Success? <==> QueryCompatibleNsmap(st.nsmap).Success?)
    ensures st.cache.None? && r.Success? ==> r.value.1 == st.(cache := Some(r.value.0))
    ensures st.cache.None? && r.Failure? ==> r.error == MissingDefaultNamespace
  {
    match st.cache
    case Some(m) => Success((m, st))
    case None =>
      var m :- QueryCompatibleNsmap(st.nsmap);
      Success((m, st.(cache := Some(m))))
  }

  /** The namespaces `find`/`findall` pass on: the caller's, unless empty or absent. */
  function FindNamespaces(st: QueryState, given: map<string, string>): (r: Result<(map<string, string>, QueryState), Error>)
    ensures |given| > 0 ==> r == Success((given, st))
    ensures |given| == 0 && st.cache.Some? ==> r == Success((st.cache.value, st))
    ensures |given| == 0 && st.cache.None? ==>
      var computed := QueryCompatibleNsmap(st.nsmap);
      && (r.Success? <==> computed.Success?)
      && (r.Success? ==> r.value == (computed.value, st.(cache := Some(computed.value))))
      && (r.Failure? ==> r.error == computed.error)
  {
    if |given| > 0 then Success((given, st)) else CachedQueryNsmap(st)
  }

  /** `xpath`'s namespaces as written: the "" entry is popped from the very dict
      it obtained, which is the memoised one when the caller gave none. */
  function XpathNamespacesAsWritten(st: QueryState, given: map<string, string>): (r: Result<(map<string, string>, QueryState), Error>)
    ensures r.Success? ==> "" !in r.value.0
    ensures |given| > 0 ==> r == Success((given - {""}, st))
    ensures |given| == 0 && r.Success? ==> r.value.1.cache == Some(r.value.0)
  {
    var (m, st') :- FindNamespaces(st, given);
    var popped := m - {""};
    if |given| > 0 then Success((popped, st')) else Success((popped, st'.(cache := Some(popped))))
  }

  /** `xpath`'s namespaces as intended: the same filtered map, without touching the memo. */
  function XpathNamespaces(st: QueryState, given: map<string, string>): (r: Result<(map<string, string>, QueryState), Error>)
    ensures r.Success? ==> "" !in r.value.0
    ensures |given| > 0 ==> r == Success((given - {""}, st))
    ensures |given| == 0 && r.Success? ==> r.value.1.cache.Some? && r.value.0 == r.value.1.cache.value - {""}
  {
    var (m, st') :- FindNamespaces(st, given);
    Success((m - {""}, st'))
  }

  /** As written, an `xpath` call without namespaces on an element with a default
      namespace strips "" from every later `find` on that element. */
  lemma XpathCorruptsFindNamespaces(nsmap: NsMap)
    requires None in nsmap
    ensures var st := QueryState(nsmap, None);
      && FindNamespaces(st, map[]).Success?
      && "" in FindNamespaces(st, map[]).value.0
      && XpathNamespacesAsWritten(st, map[]).Success?
      && var st' := XpathNamespacesAsWritten(st, map[]).value.1;
         FindNamespaces(st', map[]).Success? && "" !in FindNamespaces(st', map[]).value.0
  {
  }

  /** The intended version leaves later `find` calls as they were. */
  lemma XpathKeepsFindNamespaces(st: QueryState)
    requires XpathNamespaces(st, map[]).Success?
    ensures FindNamespaces(st, map[]).Success?
    ensures var st' := XpathNamespaces(st, map[]).value.1;
      FindNamespaces(st', map[]).Success? && FindNamespaces(st', map[]).value.0 == FindNamespaces(st, map[]).value.0
  {
  }

  // ---------------------------------------------------------------------------
  // Paths

  predicate ValidPath(n: Node, p: Path)
    decreases |p|
  {
    |p| == 0 || (p[0] < |n.children| && ValidPath(n.children[p[0]], p[1..]))
  }

  function At(n: Node, p: Path): Node
    requires ValidPath(n, p)
    decreases |p|
  {
    if |p| == 0 then n else At(n.children[p[0]], p[1..])
  }

  lemma {:induction false} AtAppend(n: Node, r: Path, q: Path)
    requires ValidPath(n, r)
    ensures ValidPath(n, r + q) <==> ValidPath(At(n, r), q)
    ensures ValidPath(n, r + q) ==> At(n, r + q) == At(At(n, r), q)
    decreases |r|
  {
    if |r| > 0 {
      assert (r + q)[0] == r[0] && (r + q)[1..] == r[1..] + q;
      AtAppend(n.children[r[0]], r[1..], q);
    } else {
      assert r + q == q;
    }
  }

  /** The paths of a prefix of a path are valid when the path is. */
  lemma {:induction false} ValidPrefix(n: Node, p: Path, k: nat)
    requires ValidPath(n, p) && k <= |p|
    ensures ValidPath(n, p[..k])
    decreases |p|
  {
    if k > 0 {
      assert p[..k][1..] == p[1..][..k - 1];
      ValidPrefix(n.children[p[0]], p[1..], k - 1);
    }
  }

  // ---------------------------------------------------------------------------
  // Document order

  /** Every path of `ps`, below child `i`. */
  function Under(i: nat, ps: seq<Path>): (r: seq<Path>)
    ensures |r| == |ps|
    ensures forall k :: 0 <= k < |ps| ==> r[k] == [i] + ps[k]
  {
    seq(|ps|, k requires 0 <= k < |ps| => [i] + ps[k])
  }

  /** Every element path of the subtree in pre-order (lxml's `iter()`), the root first. */
  function Preorder(n: Node): (r: seq<Path>)
    ensures |r| > 0 && r[0] == []
    ensures forall k :: 0 <= k < |r| ==> ValidPath(n, r[k])
    decreases n, |n.children| + 1
  {
    [[]] + PreorderFrom(n, 0)
  }

  function PreorderFrom(n: Node, i: nat): (r: seq<Path>)
    requires i <= |n.children|
    ensures forall k :: 0 <= k < |r| ==> |r[k]| > 0 && i <= r[k][0] && ValidPath(n, r[k])
    decreases n, |n.children| - i
  {
    if i == |n.children| then []
    else
      var head := Under(i, Preorder(n.children[i]));
      assert forall k :: 0 <= k < |head| ==> head[k][1..] == Preorder(n.children[i])[k];
      head + PreorderFrom(n, i + 1)
  }

  /** Every element of the tree is visited. */
  lemma {:induction false} PreorderComplete(n: Node, p: Path)
    requires ValidPath(n, p)
    ensures p in Preorder(n)
    decreases |p|
  {
    if |p| > 0 {
      PreorderComplete(n.children[p[0]], p[1..]);
      assert p == [p[0]] + p[1..];
      PreorderFromContains(n, 0, p[0], p[1..]);
    }
  }

  lemma {:induction false} PreorderFromContains(n: Node, i: nat, j: nat, q: Path)
    requires i <= j < |n.children| && q in Preorder(n.children[j])
    ensures [j] + q in PreorderFrom(n, i)
    decreases |n.children| - i
  {
    if i < j {
      PreorderFromContains(n, i + 1, j, q);
    } else {
      var k :| 0 <= k < |Preorder(n.children[j])| && Preorder(n.children[j])[k] == q;
      assert Under(i, Preorder(n.children[i]))[k] == [j] + q;
    }
  }

  /** Strict lexicographic order on paths; a path precedes its extensions. */
  predicate LexLess(a: Path, b: Path)
    decreases |a|
  {
    |b| > 0 && (|a| == 0 || a[0] < b[0] || (a[0] == b[0] && LexLess(a[1..], b[1..])))
  }

  predicate StrictlySorted(s: seq<Path>) {
    forall i, j :: 0 <= i < j < |s| ==> LexLess(s[i], s[j])
  }

  /** Document order is lexicographic order of paths: each element comes after
      its ancestors and after everything in earlier sibling subtrees. */
  lemma {:induction false} PreorderSorted(n: Node)
    ensures StrictlySorted(Preorder(n))
    decreases n, |n.children| + 1
  {
    PreorderFromSorted(n, 0);
  }

  lemma {:induction false} PreorderFromSorted(n: Node, i: nat)
    requires i <= |n.children|
    ensures StrictlySorted(PreorderFrom(n, i))
    decreases n, |n.children| - i
  {
    if i < |n.children| {
      var ps := Preorder(n.children[i]);
      var head := Under(i, ps);
      var tail := PreorderFrom(n, i + 1);
      PreorderSorted(n.children[i]);
      PreorderFromSorted(n, i + 1);
      forall a, b | 0 <= a < b < |head| ensures LexLess(head[a], head[b]) {
        assert head[a][1..] == ps[a] && head[b][1..] == ps[b];
      }
      assert PreorderFrom(n, i) == head + tail;
    }
  }

  /** Putting the same steps in front of two paths keeps their order. */
  lemma {:induction false} LexLessPrepend(r: Path, a: Path, b: Path)
    requires LexLess(a, b)
    ensures LexLess(r + a, r + b)
    decreases |r|
  {
    if |r| > 0 {
      LexLessPrepend(r[1..], a, b);
      assert (r + a)[1..] == r[1..] + a && (r + b)[1..] == r[1..] + b;
    } else {
      assert r + a == a && r + b == b;
    }
  }

  /** `xs` is `ys` with some elements left out and the rest kept in order. */
  predicate Subsequence<T(==)>(xs: seq<T>, ys: seq<T>)
    decreases |ys|
  {
    |xs| == 0 || (|ys| > 0 && ((xs[0] == ys[0] && Subsequence(xs[1..], ys[1..])) || Subsequence(xs, ys[1..])))
  }

  lemma {:induction false} SubsequenceMembers<T>(xs: seq<T>, ys: seq<T>)
    requires Subsequence(xs, ys)
    ensures forall x :: x in xs ==> x in ys
    decreases |ys|
  {
    if |xs| > 0 {
      if xs[0] == ys[0] && Subsequence(xs[1..], ys[1..]) {
        SubsequenceMembers(xs[1..], ys[1..]);
        assert xs == [xs[0]] + xs[1..];
      } else {
        SubsequenceMembers(xs, ys[1..]);
      }
    }
  }

  /** Leaving elements out of a sequence in document order keeps it in
      document order. */
  lemma {:induction false} SubsequenceSorted(xs: seq<Path>, ys: seq<Path>)
    requires Subsequence(xs, ys) && StrictlySorted(ys)
    ensures StrictlySorted(xs)
    decreases |ys|
  {
    if |xs| > 0 {
      var tail := ys[1..];
      assert StrictlySorted(tail) by {
        forall i, j | 0 <= i < j < |tail| ensures LexLess(tail[i], tail[j]) {
          assert tail[i] == ys[i + 1] && tail[j] == ys[j + 1];
        }
      }
      if xs[0] == ys[0] && Subsequence(xs[1..], tail) {
        var rest := xs[1..];
        SubsequenceSorted(rest, tail);
        SubsequenceMembers(rest, tail);
        forall j | 0 < j < |xs| ensures LexLess(xs[0], xs[j]) {
          assert xs[j] == rest[j - 1] && rest[j - 1] in rest;
          var k :| 0 <= k < |tail| && tail[k] == xs[j];
          assert ys[k + 1] == xs[j];
        }
        forall i, j | 0 < i < j < |xs| ensures LexLess(xs[i], xs[j]) {
          assert xs[i] == rest[i - 1] && xs[j] == rest[j - 1];
        }
      } else {
        SubsequenceSorted(xs, tail);
      }
    }
  }

  // ---------------------------------------------------------------------------
  // Attribute update

  /** `element.attrib[key] = value` on the element at `p`. */
  function SetAttr(n: Node, p: Path, key: string, v: AttrValue): (r: Node)
    requires ValidPath(n, p)
    decreases |p|
  {
    if |p| == 0 then n.(attrs := n.attrs[key := v])
    else n.(children := n.children[p[0] := SetAttr(n.children[p[0]], p[1..], key, v)])
  }

  /** An element without its attributes and children. */
  function Label(x: Node): Node {
    x.(attrs := map[], children := [])
  }

  /** Setting an attribute changes that one attribute of that one element: the
      tree shape, every label and every other attribute stay as they were. */
  lemma {:induction false} SetAttrEffect(n: Node, p: Path, key: string, v: AttrValue, q: Path)
    requires ValidPath(n, p)
    ensures ValidPath(SetAttr(n, p, key, v), q) <==> ValidPath(n, q)
    ensures ValidPath(n, q) ==>
      && Label(At(SetAttr(n, p, key, v), q)) == Label(At(n, q))
      && |At(SetAttr(n, p, key, v), q).children| == |At(n, q).children|
      && At(SetAttr(n, p, key, v), q).attrs == (if q == p then At(n, q).attrs[key := v] else At(n, q).attrs)
    decreases |q|
  {
    var r := SetAttr(n, p, key, v);
    if |q| > 0 && |p| > 0 && q[0] < |n.children| {
      SetAttrEffect(n.children[q[0]], if q[0] == p[0] then p[1..] else [], key, v, q[1..]);
      if q[0] == p[0] {
        assert q == p <==> q[1..] == p[1..];
      } else {
        assert r.children[q[0]] == n.children[q[0]];
      }
    }
  }
}
