/** The two hierarchy trees of src/penai/hierarchy_generation/inference.py: the
    schema tree a language model answers with (`HierarchyInferenceElement`),
    and the tree of shapes built from it (`HierarchyElement`). The built tree
    has back-references from each element to its parent, so it is modelled as
    an arena: a sequence of elements that refer to each other by position. The
    shape type is a parameter, since nothing here looks inside a shape. */
module Hierarchy {
  import opened Wrappers

  // ---------------------------------------------------------------------------
  // HierarchyInferenceElement

  datatype SchemaNode = SchemaNode(id: string, description: string, children: ChildList)

  /** The `children` field: `None`, or a list. */
  datatype ChildList = Absent | Listed(nodes: seq<SchemaNode>)

  /** The children a loop over the element visits: none when the list is
      missing or empty. */
  function Kids(n: SchemaNode): seq<SchemaNode> {
    if n.children.Listed? then n.children.nodes else []
  }

  /** `HierarchyInferenceElement.flatten`: the element, then the flattening of
      each child in order (pre-order). */
  function Flatten(n: SchemaNode): (r: seq<SchemaNode>)
    ensures |r| >= 1 && r[0] == n
    ensures |Kids(n)| == 0 ==> r == [n]
    decreases n, 1
  {
    match n.children
    case Absent => [n]
    case Listed(cs) => [n] + FlattenAll(cs)
  }

  function FlattenAll(cs: seq<SchemaNode>): seq<SchemaNode>
    decreases cs, 0
  {
    if |cs| == 0 then [] else Flatten(cs[0]) + FlattenAll(cs[1..])
  }

  /** The id of the first element, in the given order, that the mapping lacks. */
  function FirstMissing<S>(mapping: map<string, S>, xs: seq<SchemaNode>): Option<string> {
    if |xs| == 0 then None
    else if xs[0].id !in mapping then Some(xs[0].id)
    else FirstMissing(mapping, xs[1..])
  }

  /** No id is missing exactly when every element is mapped; a missing id is
      that of an unmapped element with only mapped elements before it. */
  lemma {:induction false} FirstMissingMeans<S>(mapping: map<string, S>, xs: seq<SchemaNode>)
    ensures FirstMissing(mapping, xs).None? <==> forall i :: 0 <= i < |xs| ==> xs[i].id in mapping
    ensures FirstMissing(mapping, xs).Some? ==>
      exists k :: 0 <= k < |xs| && xs[k].id == FirstMissing(mapping, xs).value && xs[k].id !in mapping &&
        forall j :: 0 <= j < k ==> xs[j].id in mapping
  {
    if |xs| > 0 && xs[0].id in mapping {
      var t := xs[1..];
      FirstMissingMeans(mapping, t);
      assert forall i :: 0 < i < |xs| ==> xs[i] == t[i - 1];
      if FirstMissing(mapping, t).Some? {
        var k :| 0 <= k < |t| && t[k].id == FirstMissing(mapping, t).value && t[k].id !in mapping &&
          forall j :: 0 <= j < k ==> t[j].id in mapping;
        assert xs[k + 1] == t[k];
      }
    }
  }

  lemma {:induction false} FirstMissingAppend<S>(mapping: map<string, S>, a: seq<SchemaNode>, b: seq<SchemaNode>)
    ensures FirstMissing(mapping, a + b) ==
      if FirstMissing(mapping, a).Some? then FirstMissing(mapping, a) else FirstMissing(mapping, b)
  {
    if |a| == 0 {
      assert a + b == b;
    } else {
      assert (a + b)[1..] == a[1..] + b;
      FirstMissingAppend(mapping, a[1..], b);
    }
  }

  // ---------------------------------------------------------------------------
  // HierarchyElement

  /** One element: its shape, its description, and its parent and children as
      positions in the arena. */
  datatype Elem<S> = Elem(shape: S, description: string, parent: Option<nat>, children: seq<nat>)

  /** `HierarchyElement.from_hierarchy_schema(mapping, src, parent)`: the new
      element is added at position `|arena|`, then each child is built in turn
      with the new element as its parent and listed among its children. A
      missing id raises KeyError, and the first one met in pre-order is the one
      reported. */
  function Build<S>(mapping: map<string, S>, src: SchemaNode, parent: Option<nat>, arena: seq<Elem<S>>)
    : (r: Result<seq<Elem<S>>, Error>)
    ensures r.Success? ==> |r.value| == |arena| + |Flatten(src)| && r.value[..|arena|] == arena
    decreases src, 1
  {
    if src.id !in mapping then Failure(MissingKey(src.id))
    else
      var a1 := arena + [Slot(mapping, src, parent)];
      match src.children
      case Absent => Success(a1)
      case Listed(cs) =>
        var built :- BuildChildren(mapping, cs, |arena|, a1);
        assert built.0[..|arena|] == built.0[..|a1|][..|arena|];
        Success(Attach(built.0, |arena|, built.1))
  }

  /** The new element as first added: no children yet. */
  function Slot<S>(mapping: map<string, S>, src: SchemaNode, parent: Option<nat>): Elem<S>
    requires src.id in mapping
  {
    Elem(mapping[src.id], src.description, parent, [])
  }

  /** The element at `idx` with its children list filled in. */
  function Attach<S>(a: seq<Elem<S>>, idx: nat, kids: seq<nat>): (r: seq<Elem<S>>)
    requires idx < |a|
    ensures |r| == |a| && r[idx] == a[idx].(children := kids)
    ensures forall k :: 0 <= k < |a| && k != idx ==> r[k] == a[k]
  {
    a[idx := a[idx].(children := kids)]
  }

  /** The loop over the children: each child's subtree is added after the
      previous one, and the positions of the children are returned in order. */
  function BuildChildren<S>(mapping: map<string, S>, cs: seq<SchemaNode>, parent: nat, arena: seq<Elem<S>>)
    : (r: Result<(seq<Elem<S>>, seq<nat>), Error>)
    ensures r.Success? ==>
      && |r.value.0| == |arena| + |FlattenAll(cs)| && r.value.0[..|arena|] == arena
      && |r.value.1| == |cs|
    decreases cs, 0
  {
    if |cs| == 0 then Success((arena, []))
    else
      var a1 :- Build(mapping, cs[0], Some(parent), arena);
      var built :- BuildChildren(mapping, cs[1..], parent, a1);
      assert built.0[..|arena|] == built.0[..|a1|][..|arena|];
      Success((built.0, [|arena|] + built.1))
  }

  /** A build fails exactly when some id in the schema's pre-order is not
      mapped, and the error names the first such id. */
  lemma {:induction false} BuildFails<S>(mapping: map<string, S>, src: SchemaNode, parent: Option<nat>, arena: seq<Elem<S>>)
    ensures var r := Build(mapping, src, parent, arena);
      && (r.Success? <==> FirstMissing(mapping, Flatten(src)).None?)
      && (r.Failure? ==> r.error == MissingKey(FirstMissing(mapping, Flatten(src)).value))
    decreases src, 1
  {
    match src.children
    case Absent =>
      FirstMissingAppend(mapping, [src], []);
    case Listed(cs) =>
      FirstMissingAppend(mapping, [src], FlattenAll(cs));
      if src.id in mapping {
        BuildChildrenFails(mapping, cs, |arena|, arena + [Slot(mapping, src, parent)]);
      }
  }

  lemma {:induction false} BuildChildrenFails<S>(mapping: map<string, S>, cs: seq<SchemaNode>, parent: nat, arena: seq<Elem<S>>)
    ensures var r := BuildChildren(mapping, cs, parent, arena);
      && (r.Success? <==> FirstMissing(mapping, FlattenAll(cs)).None?)
      && (r.Failure? ==> r.error == MissingKey(FirstMissing(mapping, FlattenAll(cs)).value))
    decreases cs, 0
  {
    if |cs| > 0 {
      FirstMissingAppend(mapping, Flatten(cs[0]), FlattenAll(cs[1..]));
      BuildFails(mapping, cs[0], Some(parent), arena);
      var r1 := Build(mapping, cs[0], Some(parent), arena);
      if r1.Success? {
        BuildChildrenFails(mapping, cs[1..], parent, r1.value);
      }
    }
  }

  /** `HierarchyElement.from_hierarchy_schema(mapping, src)`: the root is at
      position 0 and has no parent; a KeyError names the first id, in the
      schema's pre-order, that the mapping lacks. */
  function FromHierarchySchema<S>(mapping: map<string, S>, src: SchemaNode): (r: Result<seq<Elem<S>>, Error>)
    ensures r.Success? <==> forall i :: 0 <= i < |Flatten(src)| ==> Flatten(src)[i].id in mapping
    ensures r.Success? ==> |r.value| == |Flatten(src)| && r.value[0].parent.None?
    ensures r.Failure? ==>
      FirstMissing(mapping, Flatten(src)).Some? && r.error == MissingKey(FirstMissing(mapping, Flatten(src)).value)
  {
    var r := Build(mapping, src, None, []);
    BuildFails(mapping, src, None, []);
    FirstMissingMeans(mapping, Flatten(src));
    if r.Success? then
      BuildRoot(mapping, src, None, []);
      r
    else
      assert FirstMissing(mapping, Flatten(src)).Some?;
      r
  }

  // ---------------------------------------------------------------------------
  // HierarchyElement.flatten

  /** Every element from `lo` on lists children that lie after it in the arena. */
  predicate Forward<S>(F: seq<Elem<S>>, lo: nat) {
    forall k, j :: lo <= k < |F| && 0 <= j < |F[k].children| ==> k < F[k].children[j] < |F|
  }

  /** Every child listed by an element from `lo` on names that element as its parent. */
  predicate BackLinked<S>(F: seq<Elem<S>>, lo: nat)
    requires Forward(F, lo)
  {
    forall k, j :: lo <= k < |F| && 0 <= j < |F[k].children| ==> F[F[k].children[j]].parent == Some(k)
  }

  /** `HierarchyElement.flatten` from position `i`: the element, then the
      flattening of each child in order, as arena positions. */
  function ElemFlatten<S>(F: seq<Elem<S>>, i: nat): seq<nat>
    requires i < |F| && Forward(F, i)
    decreases |F| - i, 0
  {
    [i] + KidsFlatten(F, F[i].children, i + 1)
  }

  function KidsFlatten<S>(F: seq<Elem<S>>, ks: seq<nat>, b: nat): seq<nat>
    requires Forward(F, b) && forall j :: 0 <= j < |ks| ==> b <= ks[j] < |F|
    decreases |F| - b, |ks|
  {
    if |ks| == 0 then [] else ElemFlatten(F, ks[0]) + KidsFlatten(F, ks[1..], b)
  }

  /** The positions `lo`, …, `hi - 1`. */
  function Range(lo: nat, hi: nat): (r: seq<nat>)
    requires lo <= hi
    ensures |r| == hi - lo && forall k :: 0 <= k < |r| ==> r[k] == lo + k
  {
    seq(hi - lo, k requires 0 <= k < hi - lo => lo + k)
  }

  /** The element an arena slot holds matches a schema element. */
  ghost predicate Matches<S>(e: Elem<S>, n: SchemaNode, mapping: map<string, S>) {
    n.id in mapping && e.shape == mapping[n.id] && e.description == n.description
  }

  /** From position `lo` on, the arena holds the schema elements `xs`, in order. */
  ghost predicate LaidOut<S>(a: seq<Elem<S>>, lo: nat, xs: seq<SchemaNode>, mapping: map<string, S>) {
    lo + |xs| <= |a| && forall k :: 0 <= k < |xs| ==> Matches(a[lo + k], xs[k], mapping)
  }

  // ---------------------------------------------------------------------------
  // What a build produces

  /** The new root holds the mapped shape, the description and the given
      parent, and has one child per schema child. */
  lemma BuildRoot<S>(mapping: map<string, S>, src: SchemaNode, parent: Option<nat>, arena: seq<Elem<S>>)
    requires Build(mapping, src, parent, arena).Success?
    ensures var a2 := Build(mapping, src, parent, arena).value;
      && Matches(a2[|arena|], src, mapping)
      && a2[|arena|].parent == parent
      && |a2[|arena|].children| == |Kids(src)|
  {
  }

  /** What a successful build is made of, when the schema lists children. */
  lemma BuildListed<S>(mapping: map<string, S>, src: SchemaNode, parent: Option<nat>, arena: seq<Elem<S>>)
    requires Build(mapping, src, parent, arena).Success? && src.children.Listed?
    ensures src.id in mapping
    ensures var b := BuildChildren(mapping, src.children.nodes, |arena|, arena + [Slot(mapping, src, parent)]);
      && b.Success?
      && Build(mapping, src, parent, arena).value == Attach(b.value.0, |arena|, b.value.1)
  {
  }

  /** What a successful build of a non-empty list of children is made of. */
  lemma BuildChildrenCons<S>(mapping: map<string, S>, cs: seq<SchemaNode>, parent: nat, arena: seq<Elem<S>>)
    requires BuildChildren(mapping, cs, parent, arena).Success? && |cs| > 0
    ensures var a1 := Build(mapping, cs[0], Some(parent), arena);
      && a1.Success?
      && var rest := BuildChildren(mapping, cs[1..], parent, a1.value);
      && rest.Success?
      && BuildChildren(mapping, cs, parent, arena).value == (rest.value.0, [|arena|] + rest.value.1)
  {
  }

  /** The new slots hold, in order, the elements of the schema's pre-order. */
  lemma {:induction false} BuildContent<S>(mapping: map<string, S>, src: SchemaNode, parent: Option<nat>, arena: seq<Elem<S>>)
    requires Build(mapping, src, parent, arena).Success?
    ensures LaidOut(Build(mapping, src, parent, arena).value, |arena|, Flatten(src), mapping)
    decreases src, 1
  {
    var a2 := Build(mapping, src, parent, arena).value;
    match src.children
    case Absent =>
    case Listed(cs) =>
      BuildListed(mapping, src, parent, arena);
      var a1 := arena + [Slot(mapping, src, parent)];
      var built := BuildChildren(mapping, cs, |arena|, a1).value;
      BuildChildrenContent(mapping, cs, |arena|, a1);
      AttachContent(mapping, src, cs, |arena|, built.0, built.1, a2);
  }

  lemma AttachContent<S>(mapping: map<string, S>, src: SchemaNode, cs: seq<SchemaNode>, lo: nat, b2: seq<Elem<S>>, kids: seq<nat>, a2: seq<Elem<S>>)
    requires src.id in mapping && src.children == Listed(cs)
    requires |b2| == lo + 1 + |FlattenAll(cs)| && b2[lo] == Slot(mapping, src, b2[lo].parent)
    requires LaidOut(b2, lo + 1, FlattenAll(cs), mapping)
    requires a2 == Attach(b2, lo, kids)
    ensures LaidOut(a2, lo, Flatten(src), mapping)
  {
    forall k | 1 <= k < |Flatten(src)|
      ensures Matches(a2[lo + k], Flatten(src)[k], mapping)
    {
      assert a2[lo + k] == b2[lo + 1 + (k - 1)];
      assert Flatten(src)[k] == FlattenAll(cs)[k - 1];
    }
  }

  lemma {:induction false} BuildChildrenContent<S>(mapping: map<string, S>, cs: seq<SchemaNode>, parent: nat, arena: seq<Elem<S>>)
    requires BuildChildren(mapping, cs, parent, arena).Success?
    ensures LaidOut(BuildChildren(mapping, cs, parent, arena).value.0, |arena|, FlattenAll(cs), mapping)
    decreases cs, 0
  {
    if |cs| > 0 {
      BuildChildrenCons(mapping, cs, parent, arena);
      var a1 := Build(mapping, cs[0], Some(parent), arena).value;
      var a2 := BuildChildren(mapping, cs, parent, arena).value.0;
      BuildContent(mapping, cs[0], Some(parent), arena);
      BuildChildrenContent(mapping, cs[1..], parent, a1);
      ConcatContent(mapping, cs, |arena|, a1, a2);
    }
  }

  lemma ConcatContent<S>(mapping: map<string, S>, cs: seq<SchemaNode>, lo: nat, a1: seq<Elem<S>>, a2: seq<Elem<S>>)
    requires |cs| > 0
    requires |a1| == lo + |Flatten(cs[0])| && |a2| == |a1| + |FlattenAll(cs[1..])| && a2[..|a1|] == a1
    requires LaidOut(a1, lo, Flatten(cs[0]), mapping)
    requires LaidOut(a2, |a1|, FlattenAll(cs[1..]), mapping)
    ensures LaidOut(a2, lo, FlattenAll(cs), mapping)
  {
    var head := Flatten(cs[0]);
    assert FlattenAll(cs) == head + FlattenAll(cs[1..]);
    forall k | 0 <= k < |FlattenAll(cs)|
      ensures Matches(a2[lo + k], FlattenAll(cs)[k], mapping)
    {
      if k < |head| {
        assert a2[lo + k] == a2[..|a1|][lo + k];
      } else {
        assert FlattenAll(cs)[k] == FlattenAll(cs[1..])[k - |head|];
      }
    }
  }

  /** Each child listed in `kids` lies in `[lo, |a|)` and names `parent` as its parent. */
  ghost predicate ChildrenAt<S>(a: seq<Elem<S>>, kids: seq<nat>, parent: nat, lo: nat) {
    forall j :: 0 <= j < |kids| ==> lo <= kids[j] < |a| && a[kids[j]].parent == Some(parent)
  }

  /** The new slots form a tree: children lie after their element, and each
      child points back to the element that lists it. */
  lemma {:induction false} BuildShape<S>(mapping: map<string, S>, src: SchemaNode, parent: Option<nat>, arena: seq<Elem<S>>)
    requires Build(mapping, src, parent, arena).Success?
    ensures var a2 := Build(mapping, src, parent, arena).value;
      Forward(a2, |arena|) && BackLinked(a2, |arena|) && a2[|arena|].parent == parent
    decreases src, 1
  {
    match src.children
    case Absent =>
    case Listed(cs) =>
      BuildListed(mapping, src, parent, arena);
      var a1 := arena + [Slot(mapping, src, parent)];
      var built := BuildChildren(mapping, cs, |arena|, a1).value;
      BuildChildrenShape(mapping, cs, |arena|, a1);
      assert built.0[|arena|] == built.0[..|a1|][|arena|];
      AttachShape(built.0, |arena|, built.1, Build(mapping, src, parent, arena).value);
  }

  lemma {:induction false} BuildChildrenShape<S>(mapping: map<string, S>, cs: seq<SchemaNode>, parent: nat, arena: seq<Elem<S>>)
    requires BuildChildren(mapping, cs, parent, arena).Success?
    ensures var (a2, kids) := BuildChildren(mapping, cs, parent, arena).value;
      Forward(a2, |arena|) && BackLinked(a2, |arena|) && ChildrenAt(a2, kids, parent, |arena|)
    decreases cs, 0
  {
    if |cs| > 0 {
      BuildChildrenCons(mapping, cs, parent, arena);
      var a1 := Build(mapping, cs[0], Some(parent), arena).value;
      var rest := BuildChildren(mapping, cs[1..], parent, a1).value;
      BuildShape(mapping, cs[0], Some(parent), arena);
      BuildChildrenShape(mapping, cs[1..], parent, a1);
      ConcatShape(a1, rest.0, |arena|, rest.1, parent);
    }
  }

  lemma AttachShape<S>(b2: seq<Elem<S>>, lo: nat, kids: seq<nat>, a2: seq<Elem<S>>)
    requires lo < |b2| && Forward(b2, lo + 1) && BackLinked(b2, lo + 1)
    requires ChildrenAt(b2, kids, lo, lo + 1)
    requires a2 == Attach(b2, lo, kids)
    ensures Forward(a2, lo) && BackLinked(a2, lo) && a2[lo].parent == b2[lo].parent
  {
    forall k, j | lo < k < |a2| && 0 <= j < |a2[k].children|
      ensures k < a2[k].children[j] < |a2| && a2[a2[k].children[j]].parent == Some(k)
    {
      assert a2[k] == b2[k];
    }
  }

  lemma ConcatShape<S>(a1: seq<Elem<S>>, a2: seq<Elem<S>>, lo: nat, rest: seq<nat>, parent: nat)
    requires lo < |a1| <= |a2| && a2[..|a1|] == a1
    requires Forward(a1, lo) && BackLinked(a1, lo) && a1[lo].parent == Some(parent)
    requires Forward(a2, |a1|) && BackLinked(a2, |a1|) && ChildrenAt(a2, rest, parent, |a1|)
    ensures Forward(a2, lo) && BackLinked(a2, lo) && ChildrenAt(a2, [lo] + rest, parent, lo)
  {
    assert forall k :: lo <= k < |a1| ==> a2[k] == a1[k] by {
      forall k | lo <= k < |a1| ensures a2[k] == a1[k] {
        assert a2[k] == a2[..|a1|][k];
      }
    }
  }

  // ---------------------------------------------------------------------------
  // Flattening the built tree

  /** Flattening looks only at the element and the slots after it. */
  lemma {:induction false} ElemFlattenAgree<S>(F: seq<Elem<S>>, G: seq<Elem<S>>, i: nat)
    requires i < |F| <= |G| && Forward(F, i) && Forward(G, i)
    requires forall k :: i <= k < |F| ==> G[k] == F[k]
    ensures ElemFlatten(F, i) == ElemFlatten(G, i)
    decreases |F| - i, 0
  {
    KidsFlattenAgree(F, G, F[i].children, i + 1);
  }

  lemma {:induction false} KidsFlattenAgree<S>(F: seq<Elem<S>>, G: seq<Elem<S>>, ks: seq<nat>, b: nat)
    requires |F| <= |G| && Forward(F, b) && Forward(G, b)
    requires forall j :: 0 <= j < |ks| ==> b <= ks[j] < |F|
    requires forall k :: b <= k < |F| ==> G[k] == F[k]
    ensures KidsFlatten(F, ks, b) == KidsFlatten(G, ks, b)
    decreases |F| - b, |ks|
  {
    if |ks| > 0 {
      ElemFlattenAgree(F, G, ks[0]);
      KidsFlattenAgree(F, G, ks[1..], b);
    }
  }

  /** The lower bound only serves termination: it does not change the result. */
  lemma {:induction false} KidsFlattenBound<S>(F: seq<Elem<S>>, ks: seq<nat>, b1: nat, b2: nat)
    requires b1 <= b2 && Forward(F, b1) && Forward(F, b2)
    requires forall j :: 0 <= j < |ks| ==> b2 <= ks[j] < |F|
    ensures KidsFlatten(F, ks, b1) == KidsFlatten(F, ks, b2)
  {
    if |ks| > 0 {
      KidsFlattenBound(F, ks[1..], b1, b2);
    }
  }

  /** Flattening the new element visits exactly the new slots, in arena order. */
  lemma {:induction false} BuildFlat<S>(mapping: map<string, S>, src: SchemaNode, parent: Option<nat>, arena: seq<Elem<S>>)
    requires Build(mapping, src, parent, arena).Success?
    ensures var a2 := Build(mapping, src, parent, arena).value;
      Forward(a2, |arena|) && ElemFlatten(a2, |arena|) == Range(|arena|, |a2|)
    decreases src, 1
  {
    var a2 := Build(mapping, src, parent, arena).value;
    BuildShape(mapping, src, parent, arena);
    match src.children
    case Absent =>
      assert a2[|arena|].children == [];
      assert ElemFlatten(a2, |arena|) == [|arena|];
    case Listed(cs) =>
      BuildListed(mapping, src, parent, arena);
      var a1 := arena + [Slot(mapping, src, parent)];
      var built := BuildChildren(mapping, cs, |arena|, a1).value;
      BuildChildrenFlat(mapping, cs, |arena|, a1);
      AttachFlat(built.0, |arena|, built.1, a2);
  }

  lemma {:induction false} BuildChildrenFlat<S>(mapping: map<string, S>, cs: seq<SchemaNode>, parent: nat, arena: seq<Elem<S>>)
    requires BuildChildren(mapping, cs, parent, arena).Success?
    ensures var (a2, kids) := BuildChildren(mapping, cs, parent, arena).value;
      && Forward(a2, |arena|)
      && (forall j :: 0 <= j < |kids| ==> |arena| <= kids[j] < |a2|)
      && KidsFlatten(a2, kids, |arena|) == Range(|arena|, |a2|)
    decreases cs, 0
  {
    BuildChildrenShape(mapping, cs, parent, arena);
    if |cs| > 0 {
      BuildChildrenCons(mapping, cs, parent, arena);
      var a1 := Build(mapping, cs[0], Some(parent), arena).value;
      var rest := BuildChildren(mapping, cs[1..], parent, a1).value;
      BuildFlat(mapping, cs[0], Some(parent), arena);
      BuildChildrenFlat(mapping, cs[1..], parent, a1);
      PrefixAgrees(a1, rest.0);
      ConcatFlat(a1, rest.0, |arena|, rest.1);
    }
  }

  lemma AttachFlat<S>(b2: seq<Elem<S>>, lo: nat, kids: seq<nat>, a2: seq<Elem<S>>)
    requires lo < |b2| && Forward(b2, lo + 1)
    requires forall j :: 0 <= j < |kids| ==> lo + 1 <= kids[j] < |b2|
    requires KidsFlatten(b2, kids, lo + 1) == Range(lo + 1, |b2|)
    requires a2 == Attach(b2, lo, kids) && Forward(a2, lo)
    ensures ElemFlatten(a2, lo) == Range(lo, |a2|)
  {
    KidsFlattenAgree(b2, a2, kids, lo + 1);
  }

  lemma ConcatFlat<S>(a1: seq<Elem<S>>, a2: seq<Elem<S>>, lo: nat, rest: seq<nat>)
    requires lo < |a1| <= |a2| && forall k :: lo <= k < |a1| ==> a2[k] == a1[k]
    requires Forward(a1, lo) && ElemFlatten(a1, lo) == Range(lo, |a1|)
    requires Forward(a2, lo) && Forward(a2, |a1|)
    requires forall j :: 0 <= j < |rest| ==> |a1| <= rest[j] < |a2|
    requires KidsFlatten(a2, rest, |a1|) == Range(|a1|, |a2|)
    ensures KidsFlatten(a2, [lo] + rest, lo) == Range(lo, |a2|)
  {
    FlattenSplit(a1, a2, lo, rest);
    RangeConcat(lo, |a1|, |a2|);
  }

  lemma FlattenSplit<S>(a1: seq<Elem<S>>, a2: seq<Elem<S>>, lo: nat, rest: seq<nat>)
    requires lo < |a1| <= |a2| && forall k :: lo <= k < |a1| ==> a2[k] == a1[k]
    requires Forward(a1, lo) && Forward(a2, lo) && Forward(a2, |a1|)
    requires forall j :: 0 <= j < |rest| ==> |a1| <= rest[j] < |a2|
    ensures KidsFlatten(a2, [lo] + rest, lo) == ElemFlatten(a1, lo) + KidsFlatten(a2, rest, |a1|)
  {
    ElemFlattenAgree(a1, a2, lo);
    KidsFlattenBound(a2, rest, lo, |a1|);
    KidsFlattenCons(a2, lo, rest, lo);
  }

  lemma PrefixAgrees<T>(a1: seq<T>, a2: seq<T>)
    requires |a1| <= |a2| && a2[..|a1|] == a1
    ensures forall k :: 0 <= k < |a1| ==> a2[k] == a1[k]
  {
    forall k | 0 <= k < |a1| ensures a2[k] == a1[k] {
      assert a2[k] == a2[..|a1|][k];
    }
  }

  lemma KidsFlattenCons<S>(F: seq<Elem<S>>, k: nat, rest: seq<nat>, b: nat)
    requires Forward(F, b) && b <= k < |F|
    requires forall j :: 0 <= j < |rest| ==> b <= rest[j] < |F|
    ensures KidsFlatten(F, [k] + rest, b) == ElemFlatten(F, k) + KidsFlatten(F, rest, b)
  {
    assert ([k] + rest)[1..] == rest;
  }

  lemma RangeConcat(lo: nat, mid: nat, hi: nat)
    requires lo <= mid <= hi
    ensures Range(lo, mid) + Range(mid, hi) == Range(lo, hi)
  {
  }

  // ---------------------------------------------------------------------------
  // The two flattenings agree

  /** Flattening the built tree from its root visits every element once, in
      arena order, and the `k`-th element visited holds the shape mapped from
      the `k`-th element of the schema's flattening, with its description; the
      tree's child lists and parent references agree. */
  lemma FlattenCorresponds<S>(mapping: map<string, S>, src: SchemaNode)
    requires FromHierarchySchema(mapping, src).Success?
    ensures var h := FromHierarchySchema(mapping, src).value;
      && Forward(h, 0) && BackLinked(h, 0)
      && ElemFlatten(h, 0) == Range(0, |h|)
      && |ElemFlatten(h, 0)| == |Flatten(src)|
      && forall k :: 0 <= k < |Flatten(src)| ==> Matches(h[ElemFlatten(h, 0)[k]], Flatten(src)[k], mapping)
  {
    var h := FromHierarchySchema(mapping, src).value;
    BuildShape(mapping, src, None, []);
    BuildFlat(mapping, src, None, []);
    BuildContent(mapping, src, None, []);
    assert LaidOut(h, 0, Flatten(src), mapping);
  }

  /** An element of a schema's flattening is the element itself or an element
      of one of its children's flattenings. */
  lemma FlattenMembers(n: SchemaNode, x: SchemaNode)
    ensures x in Flatten(n) <==> x == n || exists i :: 0 <= i < |Kids(n)| && x in Flatten(Kids(n)[i])
  {
    FlattenAllMembers(Kids(n), x);
  }

  lemma {:induction false} FlattenAllMembers(cs: seq<SchemaNode>, x: SchemaNode)
    ensures x in FlattenAll(cs) <==> exists i :: 0 <= i < |cs| && x in Flatten(cs[i])
  {
    if |cs| > 0 {
      FlattenAllMembers(cs[1..], x);
      assert forall i :: 0 < i < |cs| ==> cs[i] == cs[1..][i - 1];
      if x in FlattenAll(cs[1..]) {
        var i :| 0 <= i < |cs[1..]| && x in Flatten(cs[1..][i]);
        assert x in Flatten(cs[i + 1]);
      }
    }
  }
}
