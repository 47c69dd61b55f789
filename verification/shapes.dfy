/** The shape layer of src/penai/svg.py: shape types, the marker/group tests,
    the logical parent walk, shape construction (which resolves the parent chain
    and the type) and the children scans. A shape is identified by the path of
    its `<penpot:shape>` marker element. */
module Shapes {
  import opened Wrappers
  import opened Values
  import opened Xml

  // ---------------------------------------------------------------------------
  // Shape types

  datatype ShapeCategory = Container | Primitive

  datatype ShapeType =
    | GroupShape | FrameShape | BoolShape
    | CircleShape | ImageShape | PathShape | RectShape | TextShape
  {
    function Literal(): string {
      match this
      case GroupShape => "group"
      case FrameShape => "frame"
      case BoolShape => "bool"
      case CircleShape => "circle"
      case ImageShape => "image"
      case PathShape => "path"
      case RectShape => "rect"
      case TextShape => "text"
    }

    function Category(): ShapeCategory {
      match this
      case GroupShape | FrameShape | BoolShape => Container
      case _ => Primitive
    }

    predicate IsContainer() { Category() == Container }

    predicate IsPrimitive() { Category() == Primitive }
  }

  /** The members in declaration order, which is the order of the literal table. */
  const AllTypes: seq<ShapeType> :=
    [GroupShape, FrameShape, BoolShape, CircleShape, ImageShape, PathShape, RectShape, TextShape]

  /** The valid literals, in the order the error message lists them. */
  const ValidLiterals: seq<string> := ["group", "frame", "bool", "circle", "image", "path", "rect", "text"]

  /** `PenpotShapeType.get_by_type_literal` on an attribute value. */
  function GetByTypeLiteral(v: AttrValue): (r: Result<ShapeType, Error>)
    ensures r.Success? ==> v == Text(r.value.Literal())
    ensures r.Failure? ==> r.error == UnknownTypeLiteral(v, ValidLiterals)
  {
    if v == Text("group") then Success(GroupShape)
    else if v == Text("frame") then Success(FrameShape)
    else if v == Text("bool") then Success(BoolShape)
    else if v == Text("circle") then Success(CircleShape)
    else if v == Text("image") then Success(ImageShape)
    else if v == Text("path") then Success(PathShape)
    else if v == Text("rect") then Success(RectShape)
    else if v == Text("text") then Success(TextShape)
    else Failure(UnknownTypeLiteral(v, ValidLiterals))
  }

  /** Each of the eight literals resolves to its member, nothing else resolves,
      the error lists exactly the members' literals, and every type is exactly
      one of container (group, frame, bool) or primitive. */
  lemma TypeLiteralTable(t: ShapeType, v: AttrValue)
    ensures GetByTypeLiteral(Text(t.Literal())) == Success(t)
    ensures GetByTypeLiteral(v).Success? <==> v.Text? && v.s in ValidLiterals
    ensures |ValidLiterals| == |AllTypes| == 8
    ensures forall i :: 0 <= i < |AllTypes| ==> ValidLiterals[i] == AllTypes[i].Literal()
  {
    LiteralsListed();
    LiteralResolves(t);
    ResolvesIffListed(v);
  }

  lemma LiteralResolves(t: ShapeType)
    ensures GetByTypeLiteral(Text(t.Literal())) == Success(t)
  {
    match t
    case GroupShape =>
    case FrameShape =>
    case BoolShape =>
    case CircleShape =>
    case ImageShape =>
    case PathShape =>
    case RectShape =>
    case TextShape =>
  }

  lemma ResolvesIffListed(v: AttrValue)
    ensures GetByTypeLiteral(v).Success? <==> v.Text? && v.s in ValidLiterals
  {
    LiteralsListed();
    if v.Text? && v.s in ValidLiterals {
      var i :| 0 <= i < |ValidLiterals| && ValidLiterals[i] == v.s;
      LiteralResolves(AllTypes[i]);
    }
    if GetByTypeLiteral(v).Success? {
      var t := GetByTypeLiteral(v).value;
      var i :| 0 <= i < |AllTypes| && AllTypes[i] == t;
      assert ValidLiterals[i] == v.s;
    }
  }

  lemma LiteralsListed()
    ensures forall i :: 0 <= i < |AllTypes| ==> ValidLiterals[i] == AllTypes[i].Literal()
  {
    assert ValidLiterals[0] == AllTypes[0].Literal();
    assert ValidLiterals[1] == AllTypes[1].Literal();
    assert ValidLiterals[2] == AllTypes[2].Literal();
    assert ValidLiterals[3] == AllTypes[3].Literal();
    assert ValidLiterals[4] == AllTypes[4].Literal();
    assert ValidLiterals[5] == AllTypes[5].Literal();
    assert ValidLiterals[6] == AllTypes[6].Literal();
    assert ValidLiterals[7] == AllTypes[7].Literal();
  }

  /** Every type is listed and is exactly one of container (group, frame, bool)
      or primitive. */
  lemma TypeCategories(t: ShapeType)
    ensures t in AllTypes
    ensures t.IsContainer() != t.IsPrimitive()
    ensures t.IsContainer() <==> t == GroupShape || t == FrameShape || t == BoolShape
  {
  }

  // ---------------------------------------------------------------------------
  // Element tests

  const PenpotPrefix := "penpot"

  /** `_el_is_penpot_shape`. */
  predicate IsMarker(n: Node) {
    n.prefix == Some(PenpotPrefix) && n.localname == "shape"
  }

  /** `_el_is_group`: the tag equals the element's namespaced key for "g", which
      raises when the element has namespaces but no default one. */
  function IsGroup(n: Node): (r: Result<bool, Error>)
    ensures |n.nsmap| == 0 ==> r == Success(Tag(n) == "g")
    ensures None in n.nsmap && n.nsmap[None] != "" ==> r == Success(Tag(n) == "{" + n.nsmap[None] + "}g")
    ensures |n.nsmap| > 0 && (None !in n.nsmap || n.nsmap[None] == "") ==> r.Failure?
  {
    var key :- NamespacedKey(n.nsmap, None, "g");
    Success(Tag(n) == key)
  }

  /** `get_penpot_attr`: the attribute in the element's `penpot` namespace. */
  function PenpotAttr(n: Node, key: string): (r: Result<AttrValue, Error>)
    ensures r.Success? ==> exists k :: k in n.attrs && NamespacedKey(n.nsmap, Some(PenpotPrefix), key) == Success(k) && r.value == n.attrs[k]
    ensures NamespacedKey(n.nsmap, Some(PenpotPrefix), key).Failure? ==>
      r == Failure(NamespacedKey(n.nsmap, Some(PenpotPrefix), key).error)
    ensures NamespacedKey(n.nsmap, Some(PenpotPrefix), key).Success? ==>
      var k := NamespacedKey(n.nsmap, Some(PenpotPrefix), key).value;
      && (r.Success? <==> k in n.attrs)
      && (k !in n.attrs ==> r == Failure(MissingKey(k)))
  {
    var k :- NamespacedKey(n.nsmap, Some(PenpotPrefix), key);
    if k in n.attrs then Success(n.attrs[k]) else Failure(MissingKey(k))
  }

  /** `get_node_depth`: steps from the element up to `root`, or to the document
      root when no root is given; walking past the top raises. */
  function NodeDepth(p: Path, root: Option<Path>): (r: Result<nat, Error>)
    ensures root.None? ==> r == Success(|p|)
    ensures root.Some? ==> (r.Success? <==> |root.value| <= |p| && p[..|root.value|] == root.value)
    ensures r.Success? && root.Some? ==> r.value + |root.value| == |p|
  {
    match root
    case None => Success(|p|)
    case Some(rp) => if |rp| <= |p| && p[..|rp|] == rp then Success(|p| - |rp|) else Failure(NoParentElement)
  }

  /** The index of the first `penpot:shape` child, as the `for child in …` loop finds it. */
  function FirstMarkerChild(n: Node, from: nat := 0): (r: Option<nat>)
    requires from <= |n.children|
    ensures r.Some? ==> from <= r.value < |n.children| && IsMarker(n.children[r.value])
    ensures r.Some? ==> forall j :: from <= j < r.value ==> !IsMarker(n.children[j])
    ensures r.None? ==> forall j :: from <= j < |n.children| ==> !IsMarker(n.children[j])
    decreases |n.children| - from
  {
    if from == |n.children| then None
    else if IsMarker(n.children[from]) then Some(from)
    else FirstMarkerChild(n, from + 1)
  }

  predicate IsPrefix(a: Path, b: Path) {
    |a| <= |b| && b[..|a|] == a
  }

  /** The `while` loop of `get_parent_shape` from candidate `c` upwards: the first
      group holding a marker child yields that child. */
  function FindParentFrom(doc: Node, c: Path): (r: Result<Option<Path>, Error>)
    requires ValidPath(doc, c)
    ensures r.Success? && r.value.Some? ==>
      var q := r.value.value;
      && |q| > 0 && IsPrefix(q[..|q| - 1], c)
      && ValidPath(doc, q) && IsMarker(At(doc, q))
    decreases |c|
  {
    var isGroup :- IsGroup(At(doc, c));
    var found := if isGroup then FirstMarkerChild(At(doc, c)) else None;
    if found.Some? then
      AtAppend(doc, c, [found.value]);
      assert (c + [found.value])[..|c|] == c;
      Success(Some(c + [found.value]))
    else if |c| == 0 then Success(None)
    else
      ValidPrefix(doc, c, |c| - 1);
      var r := FindParentFrom(doc, c[..|c| - 1]);
      if r.Success? && r.value.Some? then
        var q := r.value.value;
        assert IsPrefix(q[..|q| - 1], c);
        r
      else r
  }

  /** `get_parent_shape` without constructing the result: the walk starts at the
      parent of the containing group, so the result's group is a strict ancestor
      of the containing group. */
  function RawParent(doc: Node, p: Path): (r: Result<Option<Path>, Error>)
    requires ValidPath(doc, p)
    ensures |p| == 0 ==> r == Failure(NoParentElement)
    ensures |p| == 1 ==> r == Success(None)
    ensures r.Success? && r.value.Some? ==>
      var q := r.value.value;
      && 0 < |q| < |p| && IsPrefix(q[..|q| - 1], p[..|p| - 2])
      && ValidPath(doc, q) && IsMarker(At(doc, q))
  {
    if |p| == 0 then Failure(NoParentElement)
    else if |p| == 1 then Success(None)
    else
      ValidPrefix(doc, p, |p| - 2);
      FindParentFrom(doc, p[..|p| - 2])
  }

  /** A `PenpotShapeElement`: its marker path, `depth_in_svg`, `depth_in_shapes`
      and type. Two shapes are equal exactly when their elements are. */
  datatype Shape = Shape(path: Path, depthInSvg: nat, depthInShapes: nat, kind: ShapeType)

  /** `PenpotShapeElement.__init__`: the depth in the tree, the length of the
      parent chain (each parent is itself constructed), then the type literal. */
  function Construct(doc: Node, p: Path): (r: Result<Shape, Error>)
    requires ValidPath(doc, p)
    ensures r.Success? ==> r.value.path == p && r.value.depthInSvg == |p| && |p| > 0
    ensures r.Success? ==> AllParents(doc, p).Success? && r.value.depthInShapes == |AllParents(doc, p).value|
    ensures r.Success? ==>
      PenpotAttr(At(doc, p), "type").Success? && Text(r.value.kind.Literal()) == PenpotAttr(At(doc, p), "type").value
    decreases |p|, 2
  {
    var chain :- AllParents(doc, p);
    var literal :- PenpotAttr(At(doc, p), "type");
    var kind :- GetByTypeLiteral(literal);
    Success(Shape(p, |p|, |chain|, kind))
  }

  /** When `PenpotShapeElement.__init__` succeeds and which error it raises: the
      parent chain is resolved first, then `penpot:type` is read (KeyError when
      absent), then the literal is looked up (ValueError when unknown). */
  lemma ConstructRule(doc: Node, p: Path)
    requires ValidPath(doc, p)
    ensures Construct(doc, p).Success? <==>
      && AllParents(doc, p).Success?
      && PenpotAttr(At(doc, p), "type").Success?
      && GetByTypeLiteral(PenpotAttr(At(doc, p), "type").value).Success?
    ensures AllParents(doc, p).Failure? ==> Construct(doc, p) == Failure(AllParents(doc, p).error)
    ensures AllParents(doc, p).Success? && PenpotAttr(At(doc, p), "type").Failure? ==>
      Construct(doc, p) == Failure(PenpotAttr(At(doc, p), "type").error)
    ensures AllParents(doc, p).Success? && PenpotAttr(At(doc, p), "type").Success? ==>
      var kind := GetByTypeLiteral(PenpotAttr(At(doc, p), "type").value);
      && (kind.Failure? ==> Construct(doc, p) == Failure(kind.error))
      && (kind.Success? ==> Construct(doc, p).Success? && Construct(doc, p).value.kind == kind.value)
  {
  }

  /** `get_parent_shape`: the marker of the nearest group above the containing
      group that holds one, constructed as a shape, or None at the top. */
  function ParentShape(doc: Node, p: Path): (r: Result<Option<Path>, Error>)
    requires ValidPath(doc, p)
    ensures r.Success? ==> RawParent(doc, p) == r
    ensures r.Success? && r.value.Some? ==> Construct(doc, r.value.value).Success?
    decreases |p|, 0
  {
    var raw :- RawParent(doc, p);
    match raw
    case None => Success(None)
    case Some(q) =>
      var _ :- Construct(doc, q);
      Success(Some(q))
  }

  /** `get_all_parent_shapes`: the chain of logical ancestors, nearest first. */
  function AllParents(doc: Node, p: Path): (r: Result<seq<Path>, Error>)
    requires ValidPath(doc, p)
    ensures r.Success? ==> ParentShape(doc, p).Success?
    ensures r.Success? && ParentShape(doc, p).value.None? ==> r.value == []
    ensures r.Success? && ParentShape(doc, p).value.Some? ==>
      var q := ParentShape(doc, p).value.value;
      AllParents(doc, q).Success? && r.value == [q] + AllParents(doc, q).value
    decreases |p|, 1
  {
    match ParentShape(doc, p)
    case Failure(e) => Failure(e)
    case Success(None) => Success([])
    case Success(Some(q)) =>
      match AllParents(doc, q)
      case Failure(e) => Failure(e)
      case Success(rest) => Success([q] + rest)
  }

  // ---------------------------------------------------------------------------
  // Scans

  /** `r.iter()`: the paths of the subtree at `r`, in document order. */
  function SubtreePaths(doc: Node, r: Path): (ps: seq<Path>)
    requires ValidPath(doc, r)
    ensures forall k :: 0 <= k < |ps| ==> ValidPath(doc, ps[k]) && IsPrefix(r, ps[k])
  {
    var local := Preorder(At(doc, r));
    forall k | 0 <= k < |local| ensures ValidPath(doc, r + local[k]) {
      AtAppend(doc, r, local[k]);
    }
    seq(|local|, k requires 0 <= k < |local| => r + local[k])
  }

  /** Every element below `r` is visited. */
  lemma SubtreeComplete(doc: Node, r: Path, p: Path)
    requires ValidPath(doc, r) && ValidPath(doc, p) && IsPrefix(r, p)
    ensures p in SubtreePaths(doc, r)
  {
    var q := p[|r|..];
    assert p == r + q;
    AtAppend(doc, r, q);
    PreorderComplete(At(doc, r), q);
    var k :| 0 <= k < |Preorder(At(doc, r))| && Preorder(At(doc, r))[k] == q;
    assert SubtreePaths(doc, r)[k] == p;
  }

  /** The markers among `paths`, in order. */
  function MarkerPaths(doc: Node, paths: seq<Path>): (ms: seq<Path>)
    requires forall k :: 0 <= k < |paths| ==> ValidPath(doc, paths[k])
    ensures forall m :: m in ms <==> m in paths && IsMarker(At(doc, m))
    ensures forall k :: 0 <= k < |ms| ==> ValidPath(doc, ms[k])
  {
    if |paths| == 0 then []
    else (if IsMarker(At(doc, paths[0])) then [paths[0]] else []) + MarkerPaths(doc, paths[1..])
  }

  /** Picking the markers out of paths in document order keeps the order. */
  lemma {:induction false} MarkerPathsSorted(doc: Node, ps: seq<Path>)
    requires forall k :: 0 <= k < |ps| ==> ValidPath(doc, ps[k])
    requires StrictlySorted(ps)
    ensures StrictlySorted(MarkerPaths(doc, ps))
  {
    if |ps| > 0 {
      MarkerPathsSorted(doc, ps[1..]);
      var rest := MarkerPaths(doc, ps[1..]);
      forall b | 0 <= b < |rest| ensures LexLess(ps[0], rest[b]) {
        assert rest[b] in ps[1..];
      }
    }
  }

  function Paths(ss: seq<Shape>): (ps: seq<Path>)
    ensures |ps| == |ss| && forall i :: 0 <= i < |ss| ==> ps[i] == ss[i].path
  {
    seq(|ss|, i requires 0 <= i < |ss| => ss[i].path)
  }

  lemma PathsCons(s: Shape, ss: seq<Shape>)
    ensures Paths([s] + ss) == [s.path] + Paths(ss)
  {
    assert forall i :: 0 < i < |ss| + 1 ==> ([s] + ss)[i] == ss[i - 1];
  }

  /** Every marker of `paths` is constructed in order; the first failure propagates. */
  function ConstructMarkers(doc: Node, paths: seq<Path>): (r: Result<seq<Shape>, Error>)
    requires forall k :: 0 <= k < |paths| ==> ValidPath(doc, paths[k])
    ensures r.Success? ==> Paths(r.value) == MarkerPaths(doc, paths)
    ensures r.Success? ==> forall i :: 0 <= i < |r.value| ==> Construct(doc, r.value[i].path) == Success(r.value[i])
    ensures r.Success? <==> forall m :: m in MarkerPaths(doc, paths) ==> Construct(doc, m).Success?
  {
    if |paths| == 0 then Success([])
    else if IsMarker(At(doc, paths[0])) then
      assert MarkerPaths(doc, paths) == [paths[0]] + MarkerPaths(doc, paths[1..]);
      match Construct(doc, paths[0])
      case Failure(e) => Failure(e)
      case Success(shape) =>
        match ConstructMarkers(doc, paths[1..])
        case Failure(e) => Failure(e)
        case Success(rest) =>
          PathsCons(shape, rest);
          assert ([shape] + rest)[1..] == rest;
          Success([shape] + rest)
    else
      assert MarkerPaths(doc, paths) == MarkerPaths(doc, paths[1..]);
      ConstructMarkers(doc, paths[1..])
  }

  /** The shapes at depth `d`, in order. */
  function AtDepth(ss: seq<Shape>, d: nat): (r: seq<Shape>)
    ensures forall s :: s in r <==> s in ss && s.depthInShapes == d
  {
    if |ss| == 0 then []
    else (if ss[0].depthInShapes == d then [ss[0]] else []) + AtDepth(ss[1..], d)
  }

  /** `depth_to_shape_el`: a `defaultdict(list)` filled by appending each shape
      to the list of its depth. */
  function Buckets(ss: seq<Shape>): map<nat, seq<Shape>> {
    if |ss| == 0 then map[]
    else
      var b := Buckets(ss[..|ss| - 1]);
      var s := ss[|ss| - 1];
      b[s.depthInShapes := (if s.depthInShapes in b then b[s.depthInShapes] else []) + [s]]
  }

  lemma {:induction false} AtDepthAppend(ss: seq<Shape>, s: Shape, d: nat)
    ensures AtDepth(ss + [s], d) == AtDepth(ss, d) + (if s.depthInShapes == d then [s] else [])
  {
    if |ss| > 0 {
      assert (ss + [s])[1..] == ss[1..] + [s];
      AtDepthAppend(ss[1..], s, d);
    } else {
      assert ss + [s] == [s];
    }
  }

  /** Each shape sits in exactly the bucket of its depth, buckets keep document
      order, and only depths that occur have a bucket. */
  lemma {:induction false} BucketsAreDepthClasses(ss: seq<Shape>)
    ensures forall d :: d in Buckets(ss) <==> exists s :: s in ss && s.depthInShapes == d
    ensures forall d :: d in Buckets(ss) ==> Buckets(ss)[d] == AtDepth(ss, d)
  {
    BucketKeys(ss);
    BucketContents(ss);
  }

  lemma {:induction false} BucketKeys(ss: seq<Shape>)
    ensures forall d :: d in Buckets(ss) <==> exists s :: s in ss && s.depthInShapes == d
  {
    if |ss| > 0 {
      var init := ss[..|ss| - 1];
      var s := ss[|ss| - 1];
      assert ss == init + [s];
      BucketKeys(init);
      forall d ensures d in Buckets(ss) <==> exists t :: t in ss && t.depthInShapes == d {
        if d in Buckets(init) {
          var t :| t in init && t.depthInShapes == d;
          assert t in ss;
        }
        if exists t :: t in ss && t.depthInShapes == d {
          var t :| t in ss && t.depthInShapes == d;
          if t != s {
            assert t in init;
          }
        }
      }
    }
  }

  lemma {:induction false} BucketContents(ss: seq<Shape>)
    ensures forall d :: d in Buckets(ss) ==> Buckets(ss)[d] == AtDepth(ss, d)
  {
    if |ss| > 0 {
      var init := ss[..|ss| - 1];
      var s := ss[|ss| - 1];
      assert ss == init + [s];
      BucketContents(init);
      BucketKeys(init);
      forall d | d in Buckets(ss) ensures Buckets(ss)[d] == AtDepth(ss, d) {
        AtDepthAppend(init, s, d);
        if d == s.depthInShapes && d !in Buckets(init) {
          forall i | 0 <= i < |init| ensures init[i].depthInShapes != d {
            assert init[i] in init;
          }
          AtDepthEmpty(init, d);
        }
      }
    }
  }

  lemma {:induction false} AtDepthEmpty(ss: seq<Shape>, d: nat)
    requires forall i :: 0 <= i < |ss| ==> ss[i].depthInShapes != d
    ensures AtDepth(ss, d) == []
  {
    if |ss| > 0 {
      AtDepthEmpty(ss[1..], d);
    }
  }

  /** `shape_el_to_depth`. */
  function DepthOf(ss: seq<Shape>): map<Path, nat> {
    if |ss| == 0 then map[]
    else DepthOf(ss[..|ss| - 1])[ss[|ss| - 1].path := ss[|ss| - 1].depthInShapes]
  }

  /** The three results of `find_all_penpot_shapes`. */
  datatype Scan = Scan(shapes: seq<Shape>, byDepth: map<nat, seq<Shape>>, depthOf: map<Path, nat>)

  /** `find_all_penpot_shapes(r)`. Depths are those the shapes carry, i.e. counted
      up to the document root, whatever element the scan started from. */
  function FindAll(doc: Node, r: Path): (res: Result<Scan, Error>)
    requires ValidPath(doc, r)
    ensures res.Success? <==> ConstructMarkers(doc, SubtreePaths(doc, r)).Success?
    ensures res.Success? ==> res.value.shapes == ConstructMarkers(doc, SubtreePaths(doc, r)).value
    ensures res.Success? ==> forall d :: d in res.value.byDepth ==> res.value.byDepth[d] == AtDepth(res.value.shapes, d)
    ensures res.Success? ==> forall d :: d in res.value.byDepth <==> exists s :: s in res.value.shapes && s.depthInShapes == d
  {
    match ConstructMarkers(doc, SubtreePaths(doc, r))
    case Failure(e) => Failure(e)
    case Success(ss) =>
      BucketsAreDepthClasses(ss);
      Success(Scan(ss, Buckets(ss), DepthOf(ss)))
  }

  /** `[shape for shape in ps if shape != s]`. */
  function Without(ps: seq<Path>, s: Path): (r: seq<Path>)
    ensures forall p :: p in r <==> p in ps && p != s
    ensures Subsequence(r, ps)
  {
    if |ps| == 0 then []
    else
      var rest := Without(ps[1..], s);
      if ps[0] == s then rest
      else
        assert ([ps[0]] + rest)[1..] == rest;
        [ps[0]] + rest
  }

  /** A scan lists its markers in document order. */
  lemma ScanSorted(doc: Node, r: Path)
    requires ValidPath(doc, r) && FindAll(doc, r).Success?
    ensures StrictlySorted(Paths(FindAll(doc, r).value.shapes))
  {
    var local := Preorder(At(doc, r));
    var ps := SubtreePaths(doc, r);
    PreorderSorted(At(doc, r));
    forall a, b | 0 <= a < b < |ps| ensures LexLess(ps[a], ps[b]) {
      LexLessPrepend(r, local[a], local[b]);
    }
    MarkerPathsSorted(doc, ps);
  }

  /** `get_all_children_shapes`: every marker under the containing group except
      the shape itself, in document order. */
  function AllChildren(doc: Node, s: Path): (r: Result<seq<Path>, Error>)
    requires ValidPath(doc, s)
    ensures |s| == 0 ==> r == Failure(NoParentElement)
    ensures r.Success? ==> StrictlySorted(r.value)
  {
    if |s| == 0 then Failure(NoParentElement)
    else
      ValidPrefix(doc, s, |s| - 1);
      match FindAll(doc, s[..|s| - 1])
      case Failure(e) => Failure(e)
      case Success(scan) =>
        ScanSorted(doc, s[..|s| - 1]);
        SubsequenceSorted(Without(Paths(scan.shapes), s), Paths(scan.shapes));
        Success(Without(Paths(scan.shapes), s))
  }

  /** The candidates whose `get_parent_shape()` is `s`; a failing parent lookup propagates. */
  function WithParent(doc: Node, cs: seq<Path>, s: Path): (r: Result<seq<Path>, Error>)
    requires forall k :: 0 <= k < |cs| ==> ValidPath(doc, cs[k])
    ensures r.Success? ==> forall k :: 0 <= k < |r.value| ==> ValidPath(doc, r.value[k])
    ensures r.Success? ==> forall c :: c in r.value <==> c in cs && ParentShape(doc, c) == Success(Some(s))
    ensures r.Success? <==> forall c :: c in cs ==> ParentShape(doc, c).Success?
    ensures r.Success? ==> Subsequence(r.value, cs)
  {
    if |cs| == 0 then Success([])
    else
      match ParentShape(doc, cs[0])
      case Failure(e) => assert cs[0] in cs; Failure(e)
      case Success(parent) =>
        match WithParent(doc, cs[1..], s)
        case Failure(e) =>
          assert forall c :: c in cs[1..] ==> c in cs;
          Failure(e)
        case Success(rest) =>
          if parent == Some(s) then
            assert ([cs[0]] + rest)[1..] == rest;
            Success([cs[0]] + rest)
          else Success(rest)
  }

  /** `get_direct_children_shapes`: the shapes below whose parent shape is this
      one, in the order `get_all_children_shapes` lists them. */
  function DirectChildren(doc: Node, s: Path): (r: Result<seq<Path>, Error>)
    requires ValidPath(doc, s)
    ensures r.Success? ==> forall k :: 0 <= k < |r.value| ==> ValidPath(doc, r.value[k])
    ensures r.Success? ==> forall k :: 0 <= k < |r.value| ==> ParentShape(doc, r.value[k]) == Success(Some(s))
  {
    match AllChildren(doc, s)
    case Failure(e) => Failure(e)
    case Success(all) =>
      ChildrenIndexValid(doc, s);
      WithParent(doc, all, s)
  }

  /** The direct children keep the document order of all the children. */
  lemma DirectChildrenInOrder(doc: Node, s: Path)
    requires ValidPath(doc, s)
    ensures DirectChildren(doc, s).Success? ==>
      AllChildren(doc, s).Success? && Subsequence(DirectChildren(doc, s).value, AllChildren(doc, s).value)
    ensures DirectChildren(doc, s).Success? ==> StrictlySorted(DirectChildren(doc, s).value)
  {
    if DirectChildren(doc, s).Success? {
      var all := AllChildren(doc, s).value;
      ChildrenIndexValid(doc, s);
      assert DirectChildren(doc, s) == WithParent(doc, all, s);
      SubsequenceSorted(DirectChildren(doc, s).value, all);
    }
  }

  lemma ChildrenIndexValid(doc: Node, s: Path)
    requires ValidPath(doc, s) && AllChildren(doc, s).Success?
    ensures forall k :: 0 <= k < |AllChildren(doc, s).value| ==> ValidPath(doc, AllChildren(doc, s).value[k])
  {
    ChildrenAreValid(doc, s);
  }

  lemma ChildrenAreValid(doc: Node, s: Path)
    requires ValidPath(doc, s) && AllChildren(doc, s).Success?
    ensures forall c :: c in AllChildren(doc, s).value ==> ValidPath(doc, c) && IsMarker(At(doc, c)) && IsPrefix(s[..|s| - 1], c)
  {
    ValidPrefix(doc, s, |s| - 1);
    var g := s[..|s| - 1];
    var ss := FindAll(doc, g).value.shapes;
    forall c | c in AllChildren(doc, s).value
      ensures ValidPath(doc, c) && IsMarker(At(doc, c)) && IsPrefix(g, c)
    {
      assert c in Paths(ss);
      assert c in MarkerPaths(doc, SubtreePaths(doc, g));
    }
  }

  /** `is_leave`. */
  function IsLeaf(doc: Node, s: Path): (r: Result<bool, Error>)
    requires ValidPath(doc, s)
    ensures r.Success? <==> DirectChildren(doc, s).Success?
    ensures r.Success? ==> (r.value <==> DirectChildren(doc, s).value == [])
  {
    match DirectChildren(doc, s)
    case Failure(e) => Failure(e)
    case Success(cs) => Success(cs == [])
  }

  /** `shape_id`: the `id` attribute of the containing group. */
  function ShapeId(doc: Node, p: Path): (r: Result<Option<AttrValue>, Error>)
    requires ValidPath(doc, p)
    ensures |p| == 0 <==> r.Failure?
    ensures |p| > 0 ==> ValidPath(doc, p[..|p| - 1]) && var g := At(doc, p[..|p| - 1]);
      r == Success(if "id" in g.attrs then Some(g.attrs["id"]) else None)
  {
    if |p| == 0 then Failure(NoParentElement)
    else
      ValidPrefix(doc, p, |p| - 1);
      var g := At(doc, p[..|p| - 1]);
      Success(if "id" in g.attrs then Some(g.attrs["id"]) else None)
  }

  // ---------------------------------------------------------------------------
  // Properties of the logical tree

  /** Every marker of the document can be wrapped as a shape: its parent chain
      resolves and its type literal is known. */
  ghost predicate AllConstruct(doc: Node) {
    forall p :: ValidPath(doc, p) && IsMarker(At(doc, p)) ==> Construct(doc, p).Success?
  }

  /** On such a document every scan succeeds. */
  lemma ScanSucceeds(doc: Node, r: Path)
    requires AllConstruct(doc) && ValidPath(doc, r)
    ensures FindAll(doc, r).Success?
  {
  }

  /** A shape's depth is the length of its parent chain: zero exactly when it has
      no parent, one more than its parent's depth otherwise. */
  lemma ParentDepth(doc: Node, c: Path)
    requires ValidPath(doc, c) && Construct(doc, c).Success?
    ensures ParentShape(doc, c).Success?
    ensures ParentShape(doc, c).value.None? <==> Construct(doc, c).value.depthInShapes == 0
    ensures ParentShape(doc, c).value.Some? ==>
      var q := ParentShape(doc, c).value.value;
      ValidPath(doc, q) && Construct(doc, q).Success?
      && Construct(doc, c).value.depthInShapes == Construct(doc, q).value.depthInShapes + 1
  {
  }

  /** `get_all_children_shapes` is every marker under the containing group other
      than the shape itself. The hypothesis is stated for the whole document,
      the condition under which a page builds at all: the call itself needs
      only the markers below the group to construct, but their parent chains
      run through markers above it. */
  lemma AllChildrenMembers(doc: Node, s: Path)
    requires AllConstruct(doc) && ValidPath(doc, s) && |s| > 0
    ensures AllChildren(doc, s).Success?
    ensures forall c :: c in AllChildren(doc, s).value <==>
      ValidPath(doc, c) && IsMarker(At(doc, c)) && IsPrefix(s[..|s| - 1], c) && c != s
    ensures StrictlySorted(AllChildren(doc, s).value)
  {
    ValidPrefix(doc, s, |s| - 1);
    var g := s[..|s| - 1];
    var subtree := SubtreePaths(doc, g);
    ScanSucceeds(doc, g);
    forall c | ValidPath(doc, c) && IsMarker(At(doc, c)) && IsPrefix(g, c) && c != s
      ensures c in AllChildren(doc, s).value
    {
      SubtreeComplete(doc, g, c);
      assert c in MarkerPaths(doc, subtree);
      assert c in Paths(FindAll(doc, g).value.shapes);
    }
    ChildrenAreValid(doc, s);
  }

  /** On such a document every marker's parent lookup succeeds. */
  lemma ParentResolves(doc: Node, c: Path)
    requires AllConstruct(doc) && ValidPath(doc, c) && IsMarker(At(doc, c))
    ensures ParentShape(doc, c).Success?
  {
    assert Construct(doc, c).Success?;
  }

  /** A marker whose parent is `s` lies under the containing group of `s`. */
  lemma ChildUnderGroup(doc: Node, s: Path, c: Path)
    requires ValidPath(doc, c) && ParentShape(doc, c) == Success(Some(s))
    ensures 0 < |s| < |c| && IsPrefix(s[..|s| - 1], c) && c != s
  {
    assert RawParent(doc, c) == Success(Some(s));
    PrefixOfPrefix(s[..|s| - 1], c, |c| - 2);
  }

  lemma PrefixOfPrefix(a: Path, b: Path, k: nat)
    requires k <= |b| && IsPrefix(a, b[..k])
    ensures IsPrefix(a, b)
  {
    assert b[..k][..|a|] == b[..|a|];
  }

  /** `child_shapes` and `get_parent_shape` agree: the direct children of a shape
      are exactly the markers whose parent it is. As for `AllChildrenMembers`,
      the hypothesis is that every marker of the document constructs. */
  lemma DirectChildrenMembers(doc: Node, s: Path)
    requires AllConstruct(doc) && ValidPath(doc, s) && IsMarker(At(doc, s))
    ensures DirectChildren(doc, s).Success?
    ensures forall c :: c in DirectChildren(doc, s).value <==>
      ValidPath(doc, c) && IsMarker(At(doc, c)) && ParentShape(doc, c) == Success(Some(s))
    ensures StrictlySorted(DirectChildren(doc, s).value)
  {
    assert Construct(doc, s).Success?;
    AllChildrenMembers(doc, s);
    DirectChildrenInOrder(doc, s);
    var all := AllChildren(doc, s).value;
    forall c | c in all ensures ParentShape(doc, c).Success? {
      ParentResolves(doc, c);
    }
    assert forall k :: 0 <= k < |all| ==> ValidPath(doc, all[k]);
    var direct := WithParent(doc, all, s);
    assert DirectChildren(doc, s) == direct;
    forall c | ValidPath(doc, c) && IsMarker(At(doc, c)) && ParentShape(doc, c) == Success(Some(s))
      ensures c in direct.value
    {
      ChildUnderGroup(doc, s, c);
    }
  }

  /** A direct child is one level deeper than its parent. */
  lemma DirectChildDepth(doc: Node, s: Path, c: Path)
    requires AllConstruct(doc) && ValidPath(doc, s) && IsMarker(At(doc, s))
    requires DirectChildren(doc, s).Success? && c in DirectChildren(doc, s).value
    ensures ValidPath(doc, c) && Construct(doc, c).Success? && Construct(doc, s).Success?
    ensures Construct(doc, c).value.depthInShapes == Construct(doc, s).value.depthInShapes + 1
  {
    DirectChildrenMembers(doc, s);
    ParentDepth(doc, c);
  }

  // ---------------------------------------------------------------------------
  // The Penpot export convention

  /** A marker element is never a group: its tag ends in "shape", a group's in "g". */
  lemma MarkerIsNotGroup(n: Node)
    requires IsMarker(n)
    ensures IsGroup(n) != Success(true)
  {
    var tag := Tag(n);
    assert tag[|tag| - 1] == 'e';
    var key := NamespacedKey(n.nsmap, None, "g");
    if key.Success? {
      assert key.value[|key.value| - 1] == 'g';
    }
  }

  /** Each `<penpot:shape>` is the only marker child of a `<g>` element. */
  predicate GroupConvention(n: Node) {
    && (forall i, j :: 0 <= i < j < |n.children| && IsMarker(n.children[i]) ==> !IsMarker(n.children[j]))
    && ((exists i :: 0 <= i < |n.children| && IsMarker(n.children[i])) ==> IsGroup(n) == Success(true))
  }

  /** A document as Penpot exports it: every element keeps the convention and
      every marker constructs. */
  ghost predicate Canonical(doc: Node) {
    && AllConstruct(doc)
    && forall g :: ValidPath(doc, g) ==> GroupConvention(At(doc, g))
  }

  lemma OnlyMarkerChild(n: Node, i: nat)
    requires GroupConvention(n) && i < |n.children| && IsMarker(n.children[i])
    ensures FirstMarkerChild(n) == Some(i)
    ensures IsGroup(n) == Success(true)
  {
  }

  lemma ChildAt(doc: Node, g: Path, i: nat)
    requires ValidPath(doc, g) && i < |At(doc, g).children|
    ensures ValidPath(doc, g + [i]) && At(doc, g + [i]) == At(doc, g).children[i]
  {
    AtAppend(doc, g, [i]);
  }

  /** A `g` element with a `penpot:shape` child: the only kind of element at
      which the parent walk stops. */
  predicate HoldsMarker(doc: Node, g: Path) {
    ValidPath(doc, g) && IsGroup(At(doc, g)) == Success(true) && FirstMarkerChild(At(doc, g)).Some?
  }

  /** One step of the walk: a group holding a marker answers its first marker
      child; any other element passes the walk on to its parent, or ends it at
      the root. */
  lemma FindParentStep(doc: Node, c: Path)
    requires ValidPath(doc, c) && FindParentFrom(doc, c).Success?
    ensures HoldsMarker(doc, c) ==>
      FindParentFrom(doc, c) == Success(Some(c + [FirstMarkerChild(At(doc, c)).value]))
    ensures !HoldsMarker(doc, c) && |c| == 0 ==> FindParentFrom(doc, c) == Success(None)
    ensures !HoldsMarker(doc, c) && |c| > 0 ==>
      ValidPath(doc, c[..|c| - 1]) && FindParentFrom(doc, c) == FindParentFrom(doc, c[..|c| - 1])
  {
    if |c| > 0 {
      ValidPrefix(doc, c, |c| - 1);
    }
  }

  /** A marker the walk finds is the first marker child of a group. */
  lemma {:induction false} FoundUnderGroup(doc: Node, c: Path)
    requires ValidPath(doc, c) && FindParentFrom(doc, c).Success? && FindParentFrom(doc, c).value.Some?
    ensures var q := FindParentFrom(doc, c).value.value;
      HoldsMarker(doc, q[..|q| - 1]) && FirstMarkerChild(At(doc, q[..|q| - 1])) == Some(q[|q| - 1])
    decreases |c|
  {
    FindParentStep(doc, c);
    if HoldsMarker(doc, c) {
      var q := c + [FirstMarkerChild(At(doc, c)).value];
      assert q[..|q| - 1] == c;
    } else {
      FoundUnderGroup(doc, c[..|c| - 1]);
    }
  }

  /** No element the walk passes before it stops is a group holding a marker:
      none between the found marker's group and `c`, and none from the root to
      `c` when nothing is found. */
  lemma {:induction false} NoNearerGroup(doc: Node, c: Path)
    requires ValidPath(doc, c) && FindParentFrom(doc, c).Success?
    ensures FindParentFrom(doc, c).value.Some? ==>
      forall k :: |FindParentFrom(doc, c).value.value| <= k <= |c| ==> !HoldsMarker(doc, c[..k])
    ensures FindParentFrom(doc, c).value.None? ==>
      forall k :: 0 <= k <= |c| ==> !HoldsMarker(doc, c[..k])
    decreases |c|
  {
    FindParentStep(doc, c);
    if !HoldsMarker(doc, c) {
      assert c[..|c|] == c;
      if |c| > 0 {
        var up := c[..|c| - 1];
        NoNearerGroup(doc, up);
        forall k | 0 <= k < |c|
          ensures c[..k] == up[..k]
        {
          TakeTake(c, |c| - 1, k);
        }
      }
    }
  }

  /** The parent rule of the walk from `c`: a found marker is the first marker
      child of a group, and no element between that group and `c` (or, when
      nothing is found, no element from the root to `c`) is a group holding a
      marker. */
  lemma FindParentRule(doc: Node, c: Path)
    requires ValidPath(doc, c) && FindParentFrom(doc, c).Success?
    ensures FindParentFrom(doc, c).value.Some? ==>
      var q := FindParentFrom(doc, c).value.value;
      && HoldsMarker(doc, q[..|q| - 1])
      && FirstMarkerChild(At(doc, q[..|q| - 1])) == Some(q[|q| - 1])
      && forall k :: |q| <= k <= |c| ==> !HoldsMarker(doc, c[..k])
    ensures FindParentFrom(doc, c).value.None? ==>
      forall k :: 0 <= k <= |c| ==> !HoldsMarker(doc, c[..k])
  {
    if FindParentFrom(doc, c).value.Some? {
      FoundUnderGroup(doc, c);
    }
    NoNearerGroup(doc, c);
  }

  /** `get_parent_shape`'s rule: the parent is the first marker child of the
      nearest group holding a marker, searched from the parent of the
      containing group upwards; without such a group there is no parent. */
  lemma RawParentRule(doc: Node, p: Path)
    requires ValidPath(doc, p) && |p| >= 2 && RawParent(doc, p).Success?
    ensures RawParent(doc, p).value.Some? ==>
      var q := RawParent(doc, p).value.value;
      && HoldsMarker(doc, q[..|q| - 1])
      && FirstMarkerChild(At(doc, q[..|q| - 1])) == Some(q[|q| - 1])
      && forall k :: |q| <= k <= |p| - 2 ==> !HoldsMarker(doc, p[..k])
    ensures RawParent(doc, p).value.None? ==>
      forall k :: 0 <= k <= |p| - 2 ==> !HoldsMarker(doc, p[..k])
  {
    var w := p[..|p| - 2];
    ValidPrefix(doc, p, |p| - 2);
    assert RawParent(doc, p) == FindParentFrom(doc, w);
    FindParentRule(doc, w);
    forall k | 0 <= k <= |p| - 2
      ensures p[..k] == w[..k]
    {
      TakeTake(p, |p| - 2, k);
    }
  }

  /** The same rule for `get_parent_shape` itself, whose parent is moreover a
      constructible shape. */
  lemma ParentShapeRule(doc: Node, p: Path)
    requires ValidPath(doc, p) && |p| >= 2 && ParentShape(doc, p).Success?
    ensures ParentShape(doc, p).value.Some? ==>
      var q := ParentShape(doc, p).value.value;
      && HoldsMarker(doc, q[..|q| - 1])
      && FirstMarkerChild(At(doc, q[..|q| - 1])) == Some(q[|q| - 1])
      && (forall k :: |q| <= k <= |p| - 2 ==> !HoldsMarker(doc, p[..k]))
      && Construct(doc, q).Success?
    ensures ParentShape(doc, p).value.None? ==>
      forall k :: 0 <= k <= |p| - 2 ==> !HoldsMarker(doc, p[..k])
  {
    RawParentRule(doc, p);
  }

  lemma TakeTake(p: Path, n: nat, k: nat)
    requires k <= n <= |p|
    ensures p[..n][..k] == p[..k]
  {
  }

  /** The upward walk cannot pass a group that holds a marker. */
  lemma {:induction false} WalkStopsAtGroup(doc: Node, w: Path, g: Path)
    requires ValidPath(doc, w) && IsPrefix(g, w)
    requires ValidPath(doc, g) && IsGroup(At(doc, g)) == Success(true) && FirstMarkerChild(At(doc, g)).Some?
    requires FindParentFrom(doc, w).Success?
    ensures FindParentFrom(doc, w).value.Some?
    ensures var q := FindParentFrom(doc, w).value.value;
      IsPrefix(g, q[..|q| - 1]) && (q[..|q| - 1] == g ==> q == g + [FirstMarkerChild(At(doc, g)).value])
    decreases |w|
  {
    if HoldsMarker(doc, w) {
      FindParentStep(doc, w);
      var q := w + [FirstMarkerChild(At(doc, w)).value];
      assert q[..|q| - 1] == w;
    } else {
      WalkPassesUp(doc, w, g);
      WalkStopsAtGroup(doc, w[..|w| - 1], g);
    }
  }

  /** Below a group holding a marker, an element that holds none hands the
      walk to its parent, which is still below that group. */
  lemma WalkPassesUp(doc: Node, w: Path, g: Path)
    requires ValidPath(doc, w) && IsPrefix(g, w) && HoldsMarker(doc, g)
    requires FindParentFrom(doc, w).Success? && !HoldsMarker(doc, w)
    ensures |w| > 0 && ValidPath(doc, w[..|w| - 1]) && IsPrefix(g, w[..|w| - 1])
    ensures FindParentFrom(doc, w) == FindParentFrom(doc, w[..|w| - 1])
  {
    assert w != g;
    assert |g| < |w|;
    TakeTake(w, |w| - 1, |g|);
    FindParentStep(doc, w);
  }

  lemma MarkerChildrenAgree(n: Node, i: nat, j: nat)
    requires GroupConvention(n) && i < |n.children| && j < |n.children|
    requires IsMarker(n.children[i]) && IsMarker(n.children[j])
    ensures i == j
  {
  }

  /** A group holding a marker is not itself a marker. */
  lemma GroupIsNotMarker(n: Node, i: nat)
    requires GroupConvention(n) && i < |n.children| && IsMarker(n.children[i])
    ensures !IsMarker(n)
  {
    OnlyMarkerChild(n, i);
    if IsMarker(n) {
      MarkerIsNotGroup(n);
    }
  }

  lemma SiblingMarkerIsSelf(doc: Node, g: Path, i: nat, c: Path)
    requires ValidPath(doc, g) && GroupConvention(At(doc, g))
    requires i < |At(doc, g).children| && IsMarker(At(doc, g).children[i])
    requires ValidPath(doc, c) && IsMarker(At(doc, c)) && IsPrefix(g, c) && |c| == |g| + 1
    ensures c == g + [i]
  {
    LastStep(doc, c);
    MarkerChildrenAgree(At(doc, g), i, c[|c| - 1]);
  }

  /** Another marker under a group with marker child `i` sits at least two
      levels below the group. */
  lemma OtherMarkerBelowGroup(doc: Node, g: Path, i: nat, c: Path)
    requires ValidPath(doc, g) && GroupConvention(At(doc, g))
    requires i < |At(doc, g).children| && IsMarker(At(doc, g).children[i])
    requires ValidPath(doc, c) && IsMarker(At(doc, c)) && IsPrefix(g, c) && c != g + [i]
    ensures |c| >= |g| + 2
  {
    if |c| == |g| {
      assert c == g;
      GroupIsNotMarker(At(doc, g), i);
    } else if |c| == |g| + 1 {
      SiblingMarkerIsSelf(doc, g, i, c);
    }
  }

  /** The parent walk from a marker under a group with marker child `i` ends at
      that child or at a marker strictly between the group and `c`. */
  lemma ParentViaGroup(doc: Node, g: Path, i: nat, c: Path)
    requires ValidPath(doc, g) && GroupConvention(At(doc, g))
    requires i < |At(doc, g).children| && IsMarker(At(doc, g).children[i])
    requires ValidPath(doc, c) && IsMarker(At(doc, c)) && IsPrefix(g, c) && c != g + [i]
    requires RawParent(doc, c).Success?
    ensures RawParent(doc, c).value.Some?
    ensures var q := RawParent(doc, c).value.value;
      q == g + [i] || (ValidPath(doc, q) && IsMarker(At(doc, q)) && IsPrefix(g, q) && |g| + 1 < |q| < |c|)
  {
    OnlyMarkerChild(At(doc, g), i);
    OtherMarkerBelowGroup(doc, g, i, c);
    var w := c[..|c| - 2];
    ValidPrefix(doc, c, |c| - 2);
    PrefixWithin(g, c, |c| - 2);
    WalkStopsAtGroup(doc, w, g);
    var q := FindParentFrom(doc, w).value.value;
    PrefixOfParent(g, q);
  }

  /** A prefix of `c` no longer than `k` is a prefix of `c[..k]`. */
  lemma PrefixWithin(g: Path, c: Path, k: nat)
    requires IsPrefix(g, c) && |g| <= k <= |c|
    ensures IsPrefix(g, c[..k])
  {
    assert c[..k][..|g|] == c[..|g|];
  }

  /** A prefix of a path's parent path is the parent path itself or a prefix
      of the path that is at least two shorter. */
  lemma PrefixOfParent(g: Path, q: Path)
    requires |q| > 0 && IsPrefix(g, q[..|q| - 1])
    ensures q[..|q| - 1] == g || (IsPrefix(g, q) && |g| + 1 < |q|)
  {
    if q[..|q| - 1] != g {
      PrefixOfPrefix(g, q, |q| - 1);
    }
  }

  /** A non-empty path is a step from its parent's path. */
  lemma LastStep(doc: Node, s: Path)
    requires ValidPath(doc, s) && |s| > 0
    ensures s == s[..|s| - 1] + [s[|s| - 1]]
    ensures ValidPath(doc, s[..|s| - 1]) && s[|s| - 1] < |At(doc, s[..|s| - 1]).children|
    ensures At(doc, s[..|s| - 1]).children[s[|s| - 1]] == At(doc, s)
  {
    var g := s[..|s| - 1];
    assert s == g + [s[|s| - 1]];
    ValidPrefix(doc, s, |s| - 1);
    AtAppend(doc, g, [s[|s| - 1]]);
  }

  /** In a canonical document every other marker under the group `g` of shape
      `g + [i]` is logically below that shape, so strictly deeper. */
  lemma {:induction false} DescendantDeeper(doc: Node, g: Path, i: nat, c: Path)
    requires Canonical(doc) && ValidPath(doc, g)
    requires i < |At(doc, g).children| && IsMarker(At(doc, g).children[i])
    requires ValidPath(doc, c) && IsMarker(At(doc, c)) && IsPrefix(g, c) && c != g + [i]
    ensures ValidPath(doc, g + [i]) && Construct(doc, c).Success? && Construct(doc, g + [i]).Success?
    ensures Construct(doc, c).value.depthInShapes > Construct(doc, g + [i]).value.depthInShapes
    decreases |c|
  {
    ChildAt(doc, g, i);
    assert GroupConvention(At(doc, g));
    assert Construct(doc, c).Success? && Construct(doc, g + [i]).Success?;
    ParentResolves(doc, c);
    ParentViaGroup(doc, g, i, c);
    ParentDepth(doc, c);
    var q := ParentShape(doc, c).value.value;
    if q != g + [i] {
      DescendantDeeper(doc, g, i, q);
    }
  }

  /** Every shape `get_all_children_shapes` reports lies deeper than the shape. */
  lemma AllChildrenDeeper(doc: Node, s: Path, c: Path)
    requires Canonical(doc) && ValidPath(doc, s) && IsMarker(At(doc, s)) && |s| > 0
    requires AllChildren(doc, s).Success? && c in AllChildren(doc, s).value
    ensures ValidPath(doc, c) && Construct(doc, c).Success? && Construct(doc, s).Success?
    ensures Construct(doc, c).value.depthInShapes > Construct(doc, s).value.depthInShapes
  {
    AllChildrenMembers(doc, s);
    LastStep(doc, s);
    DescendantDeeper(doc, s[..|s| - 1], s[|s| - 1], c);
  }

}
