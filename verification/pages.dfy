/** `PenpotPageSVG` of src/penai/svg.py: the index a page builds with one scan
    of its document, lookups by depth, name and id, and the batch view-box
    resolution against a rendering of the whole page. */
module Pages {
  import opened Wrappers
  import opened Values
  import opened Xml
  import opened Geometry
  import opened Shapes
  import opened ViewBoxes

  datatype PageIndex = PageIndex(
    shapes: seq<Shape>,
    byDepth: map<nat, seq<Shape>>,
    depthOf: map<Path, nat>,
    maxDepth: nat)

  /** The largest depth among the shapes, 0 when there are none. */
  function MaxDepth(ss: seq<Shape>): (r: nat)
    ensures forall s :: s in ss ==> s.depthInShapes <= r
    ensures |ss| == 0 ==> r == 0
    ensures |ss| > 0 ==> exists s :: s in ss && s.depthInShapes == r
  {
    if |ss| == 0 then 0
    else
      var rest := MaxDepth(ss[1..]);
      if |ss| > 1 && rest > ss[0].depthInShapes then
        assert ss[1..][0] in ss[1..];
        rest
      else ss[0].depthInShapes
  }

  /** Scanning from the document root visits every element in document order. */
  lemma RootScan(doc: Node)
    ensures SubtreePaths(doc, []) == Preorder(doc)
  {
    var local := Preorder(At(doc, []));
    assert forall k :: 0 <= k < |local| ==> [] + local[k] == local[k];
  }

  /** The scan of the whole document succeeds exactly when every marker
      constructs. */
  lemma ScanIffAllConstruct(doc: Node)
    ensures FindAll(doc, []).Success? <==> AllConstruct(doc)
  {
    RootScan(doc);
    if FindAll(doc, []).Success? {
      forall p | ValidPath(doc, p) && IsMarker(At(doc, p)) ensures Construct(doc, p).Success? {
        SubtreeComplete(doc, [], p);
        assert p in MarkerPaths(doc, SubtreePaths(doc, []));
      }
    }
  }

  /** `PenpotPageSVG.__init__`. */
  function BuildPage(doc: Node): (r: Result<PageIndex, Error>)
    ensures r.Success? <==> AllConstruct(doc)
    ensures r.Success? ==> Paths(r.value.shapes) == MarkerPaths(doc, Preorder(doc))
    ensures r.Success? ==> forall i :: 0 <= i < |r.value.shapes| ==>
      Construct(doc, r.value.shapes[i].path) == Success(r.value.shapes[i])
    ensures r.Success? ==> forall d :: d in r.value.byDepth ==> r.value.byDepth[d] == AtDepth(r.value.shapes, d)
    ensures r.Success? ==> forall d :: d in r.value.byDepth <==> exists s :: s in r.value.shapes && s.depthInShapes == d
    ensures r.Success? ==> forall s :: s in r.value.shapes ==> s.depthInShapes <= r.value.maxDepth
    ensures r.Success? && |r.value.byDepth| == 0 ==> r.value.maxDepth == 0
    ensures r.Success? && |r.value.byDepth| > 0 ==>
      r.value.maxDepth in r.value.byDepth && forall d :: d in r.value.byDepth ==> d <= r.value.maxDepth
  {
    ScanIffAllConstruct(doc);
    RootScan(doc);
    match FindAll(doc, [])
    case Failure(e) => Failure(e)
    case Success(scan) =>
      var top := MaxDepth(scan.shapes);
      assert |scan.shapes| > 0 ==> scan.shapes[0] in scan.shapes;
      Success(PageIndex(scan.shapes, scan.byDepth, scan.depthOf, top))
  }

  /** A page lists its shapes in document order. */
  lemma PageInDocumentOrder(doc: Node)
    requires BuildPage(doc).Success?
    ensures StrictlySorted(Paths(BuildPage(doc).value.shapes))
    ensures forall p :: p in Paths(BuildPage(doc).value.shapes) <==> ValidPath(doc, p) && IsMarker(At(doc, p))
  {
    PreorderSorted(doc);
    MarkerPathsSorted(doc, Preorder(doc));
    forall p | ValidPath(doc, p) && IsMarker(At(doc, p)) ensures p in MarkerPaths(doc, Preorder(doc)) {
      PreorderComplete(doc, p);
    }
  }

  /** `get_shape_elements_at_depth`: the bucket, or the empty list. */
  function ShapesAtDepth(page: PageIndex, d: nat): (r: seq<Shape>)
    ensures d !in page.byDepth ==> r == []
  {
    if d in page.byDepth then page.byDepth[d] else []
  }

  /** Every depth answers exactly the page's shapes at that depth, in order; an
      absent depth answers the empty list. */
  lemma ShapesAtDepthExact(doc: Node, d: nat)
    requires BuildPage(doc).Success?
    ensures ShapesAtDepth(BuildPage(doc).value, d) == AtDepth(BuildPage(doc).value.shapes, d)
  {
    var page := BuildPage(doc).value;
    if d !in page.byDepth && AtDepth(page.shapes, d) != [] {
      assert AtDepth(page.shapes, d)[0] in AtDepth(page.shapes, d);
    }
  }

  // ---------------------------------------------------------------------------
  // The logical tree as the page sees it

  /** A shape listed in a bucket is a page shape of that depth, built from a
      marker of the document. */
  lemma InBucket(doc: Node, d: nat, s: Shape)
    requires BuildPage(doc).Success? && s in ShapesAtDepth(BuildPage(doc).value, d)
    ensures AllConstruct(doc) && s in BuildPage(doc).value.shapes && s.depthInShapes == d
    ensures ValidPath(doc, s.path) && IsMarker(At(doc, s.path)) && Construct(doc, s.path) == Success(s)
  {
    var page := BuildPage(doc).value;
    ShapesAtDepthExact(doc, d);
    var i :| 0 <= i < |page.shapes| && page.shapes[i] == s;
    assert Paths(page.shapes)[i] == s.path;
    assert s.path in MarkerPaths(doc, Preorder(doc));
  }

  lemma MarkerInShapes(doc: Node, shapes: seq<Shape>, c: Path)
    requires Paths(shapes) == MarkerPaths(doc, Preorder(doc))
    requires forall i :: 0 <= i < |shapes| ==> Construct(doc, shapes[i].path) == Success(shapes[i])
    requires ValidPath(doc, c) && IsMarker(At(doc, c))
    ensures Construct(doc, c).Success? && Construct(doc, c).value in shapes
  {
    PreorderComplete(doc, c);
    assert c in Paths(shapes);
    var k :| 0 <= k < |shapes| && Paths(shapes)[k] == c;
    assert shapes[k] in shapes;
  }

  /** Every marker of the document is listed by the page. */
  lemma MarkerListed(doc: Node, c: Path)
    requires BuildPage(doc).Success? && ValidPath(doc, c) && IsMarker(At(doc, c))
    ensures Construct(doc, c).Success? && Construct(doc, c).value in BuildPage(doc).value.shapes
  {
    MarkerInShapes(doc, BuildPage(doc).value.shapes, c);
  }

  /** No marker of the document is deeper than the page's maximal depth. */
  lemma DepthAtMostMax(doc: Node, c: Path)
    requires BuildPage(doc).Success? && ValidPath(doc, c) && IsMarker(At(doc, c))
    ensures Construct(doc, c).Success? && Construct(doc, c).value.depthInShapes <= BuildPage(doc).value.maxDepth
  {
    MarkerListed(doc, c);
  }

  /** Depth-0 shapes have no parent; a direct child of any shape names that
      shape as its parent. */
  lemma RootsAndChildren(doc: Node, s: Shape)
    requires BuildPage(doc).Success? && s in ShapesAtDepth(BuildPage(doc).value, 0)
    ensures ValidPath(doc, s.path) && ParentShape(doc, s.path) == Success(None)
    ensures DirectChildren(doc, s.path).Success?
    ensures forall c :: c in DirectChildren(doc, s.path).value ==> ValidPath(doc, c) && ParentShape(doc, c) == Success(Some(s.path))
  {
    InBucket(doc, 0, s);
    ParentDepth(doc, s.path);
    DirectChildrenMembers(doc, s.path);
  }

  /** A shape is among the children of its parent. */
  lemma ChildOfItsParent(doc: Node, c: Path)
    requires AllConstruct(doc) && ValidPath(doc, c) && IsMarker(At(doc, c))
    ensures ParentShape(doc, c).Success?
    ensures ParentShape(doc, c).value.Some? ==>
      var q := ParentShape(doc, c).value.value;
      ValidPath(doc, q) && AllChildren(doc, q).Success? && c in AllChildren(doc, q).value
  {
    ParentResolves(doc, c);
    if ParentShape(doc, c).value.Some? {
      var q := ParentShape(doc, c).value.value;
      ChildUnderGroup(doc, q, c);
      AllChildrenMembers(doc, q);
    }
  }

  lemma MaxDepthNoDirectChildren(doc: Node, s: Shape)
    requires BuildPage(doc).Success?
    requires s in ShapesAtDepth(BuildPage(doc).value, BuildPage(doc).value.maxDepth)
    ensures ValidPath(doc, s.path) && DirectChildren(doc, s.path) == Success([])
  {
    var top := BuildPage(doc).value.maxDepth;
    InBucket(doc, top, s);
    forall c | ValidPath(doc, c) && IsMarker(At(doc, c))
      ensures Construct(doc, c).Success? && Construct(doc, c).value.depthInShapes <= top
    {
      DepthAtMostMax(doc, c);
    }
    DeepestHasNoDirectChildren(doc, s.path, top);
  }

  /** A shape of the largest depth has no direct children. */
  lemma DeepestHasNoDirectChildren(doc: Node, s: Path, top: nat)
    requires AllConstruct(doc) && ValidPath(doc, s) && IsMarker(At(doc, s))
    requires Construct(doc, s).Success? && Construct(doc, s).value.depthInShapes == top
    requires forall c :: ValidPath(doc, c) && IsMarker(At(doc, c)) ==>
      Construct(doc, c).Success? && Construct(doc, c).value.depthInShapes <= top
    ensures DirectChildren(doc, s) == Success([])
  {
    DirectChildrenMembers(doc, s);
    var direct := DirectChildren(doc, s).value;
    if direct != [] {
      DirectChildDepth(doc, s, direct[0]);
    }
  }

  /** In a canonical document a shape of the largest depth has no descendants. */
  lemma DeepestHasNoDescendants(doc: Node, s: Path, top: nat)
    requires Canonical(doc) && ValidPath(doc, s) && IsMarker(At(doc, s)) && |s| > 0
    requires Construct(doc, s).Success? && Construct(doc, s).value.depthInShapes == top
    requires forall c :: ValidPath(doc, c) && IsMarker(At(doc, c)) ==>
      Construct(doc, c).Success? && Construct(doc, c).value.depthInShapes <= top
    ensures AllChildren(doc, s) == Success([])
  {
    assert AllChildren(doc, s).Success? by {
      AllChildrenMembers(doc, s);
    }
    var all := AllChildren(doc, s).value;
    if all != [] {
      AllChildrenDeeper(doc, s, all[0]);
    }
  }

  lemma MaxDepthNoDescendants(doc: Node, s: Shape)
    requires BuildPage(doc).Success? && Canonical(doc)
    requires s in ShapesAtDepth(BuildPage(doc).value, BuildPage(doc).value.maxDepth)
    ensures ValidPath(doc, s.path) && AllChildren(doc, s.path) == Success([])
  {
    var top := BuildPage(doc).value.maxDepth;
    InBucket(doc, top, s);
    forall c | ValidPath(doc, c) && IsMarker(At(doc, c))
      ensures Construct(doc, c).Success? && Construct(doc, c).value.depthInShapes <= top
    {
      DepthAtMostMax(doc, c);
    }
    DeepestHasNoDescendants(doc, s.path, top);
  }

  /** Shapes at the maximal depth are leaves, have a parent unless that depth is
      0, and sit among their parent's children; in a canonical document they
      have no descendants at all. */
  lemma MaxDepthShapesAreLeaves(doc: Node, s: Shape)
    requires BuildPage(doc).Success?
    requires s in ShapesAtDepth(BuildPage(doc).value, BuildPage(doc).value.maxDepth)
    ensures ValidPath(doc, s.path) && IsMarker(At(doc, s.path))
    ensures DirectChildren(doc, s.path) == Success([])
    ensures BuildPage(doc).value.maxDepth > 0 ==>
      && ParentShape(doc, s.path).Success? && ParentShape(doc, s.path).value.Some?
      && var q := ParentShape(doc, s.path).value.value;
         ValidPath(doc, q) && AllChildren(doc, q).Success? && s.path in AllChildren(doc, q).value
    ensures Canonical(doc) ==> AllChildren(doc, s.path) == Success([])
  {
    InBucket(doc, BuildPage(doc).value.maxDepth, s);
    MaxDepthNoDirectChildren(doc, s);
    ParentDepth(doc, s.path);
    ChildOfItsParent(doc, s.path);
    if Canonical(doc) {
      MaxDepthNoDescendants(doc, s);
    }
  }

  // ---------------------------------------------------------------------------
  // Lookup by name or id

  /** The attribute `_get_shapes_by_attr` compares: `name` (the penpot `name`
      attribute, which may be missing) or `shape_id` (the group's `id`). */
  datatype LookupKey = ByName(name: string) | ById(id: string)

  function Matches(doc: Node, s: Shape, key: LookupKey): (r: Result<bool, Error>)
    requires ValidPath(doc, s.path)
    ensures key.ByName? ==>
      (r.Success? <==> PenpotAttr(At(doc, s.path), "name").Success?)
      && (r == Success(true) <==> PenpotAttr(At(doc, s.path), "name") == Success(Text(key.name)))
    ensures key.ById? ==>
      (r.Success? <==> |s.path| > 0)
      && (r == Success(true) <==> ShapeId(doc, s.path) == Success(Some(Text(key.id))))
  {
    match key
    case ByName(name) =>
      var v :- PenpotAttr(At(doc, s.path), "name");
      Success(v == Text(name))
    case ById(id) =>
      var v :- ShapeId(doc, s.path);
      Success(v == Some(Text(id)))
  }

  /** The shapes of `ss` that match, in order; a failing attribute read propagates. */
  function Matching(doc: Node, ss: seq<Shape>, key: LookupKey): (r: Result<seq<Shape>, Error>)
    requires forall i :: 0 <= i < |ss| ==> ValidPath(doc, ss[i].path)
    ensures r.Success? <==> forall s :: s in ss ==> Matches(doc, s, key).Success?
    ensures r.Success? ==> forall s :: s in r.value <==> s in ss && Matches(doc, s, key) == Success(true)
  {
    if |ss| == 0 then Success([])
    else
      match Matches(doc, ss[0], key)
      case Failure(e) => assert ss[0] in ss; Failure(e)
      case Success(hit) =>
        match Matching(doc, ss[1..], key)
        case Failure(e) =>
          assert forall s :: s in ss[1..] ==> s in ss;
          Failure(e)
        case Success(rest) =>
          assert forall s :: s in ss <==> s == ss[0] || s in ss[1..];
          Success((if hit then [ss[0]] else []) + rest)
  }

  /** Matching keeps the page's order. */
  lemma {:induction false} MatchingSorted(doc: Node, ss: seq<Shape>, key: LookupKey)
    requires forall i :: 0 <= i < |ss| ==> ValidPath(doc, ss[i].path)
    requires Matching(doc, ss, key).Success? && StrictlySorted(Paths(ss))
    ensures StrictlySorted(Paths(Matching(doc, ss, key).value))
  {
    if |ss| > 0 {
      var tail := ss[1..];
      assert StrictlySorted(Paths(tail)) by {
        assert Paths(tail) == Paths(ss)[1..];
      }
      MatchingSorted(doc, tail, key);
      var rest := Matching(doc, tail, key).value;
      var hit := Matches(doc, ss[0], key).value;
      assert Matching(doc, ss, key).value == (if hit then [ss[0]] else []) + rest;
      if hit {
        forall b | 0 <= b < |rest|
          ensures LexLess(ss[0].path, rest[b].path)
        {
          assert rest[b] in rest;
          HeadBeforeTail(ss, rest[b]);
        }
        SortedCons(ss[0], rest);
      } else {
        assert Matching(doc, ss, key).value == rest;
      }
    }
  }

  lemma HeadBeforeTail(ss: seq<Shape>, t: Shape)
    requires |ss| > 0 && StrictlySorted(Paths(ss)) && t in ss[1..]
    ensures LexLess(ss[0].path, t.path)
  {
    var k :| 0 <= k < |ss[1..]| && ss[1..][k] == t;
    assert Paths(ss)[0] == ss[0].path && Paths(ss)[k + 1] == t.path;
  }

  lemma SortedCons(s: Shape, rest: seq<Shape>)
    requires StrictlySorted(Paths(rest))
    requires forall b :: 0 <= b < |rest| ==> LexLess(s.path, rest[b].path)
    ensures StrictlySorted(Paths([s] + rest))
  {
    PathsCons(s, rest);
  }

  /** `_get_shapes_by_attr(…, should_be_unique=False)`. */
  function ShapesWith(doc: Node, page: PageIndex, key: LookupKey): (r: Result<seq<Shape>, Error>)
    requires forall i :: 0 <= i < |page.shapes| ==> ValidPath(doc, page.shapes[i].path)
    ensures r.Success? ==> forall s :: s in r.value <==> s in page.shapes && Matches(doc, s, key) == Success(true)
  {
    Matching(doc, page.shapes, key)
  }

  /** `_get_shapes_by_attr(…, should_be_unique=True)`, behind `get_shape_by_name`
      and `get_shape_by_id`. */
  function UniqueShape(doc: Node, page: PageIndex, key: LookupKey): (r: Result<Shape, Error>)
    requires forall i :: 0 <= i < |page.shapes| ==> ValidPath(doc, page.shapes[i].path)
    ensures r.Success? ==> r.value in page.shapes && Matches(doc, r.value, key) == Success(true)
    ensures r.Success? ==> forall t :: t in page.shapes && Matches(doc, t, key) == Success(true) ==> t == r.value
    ensures r == Failure(NotFound) && ShapesWith(doc, page, key).Success? ==>
      forall t :: t in page.shapes ==> Matches(doc, t, key) == Success(false)
  {
    var matched :- ShapesWith(doc, page, key);
    if |matched| == 0 then Failure(NotFound)
    else if |matched| > 1 then Failure(Ambiguous(|matched|))
    else Success(matched[0])
  }

  /** The error cases of the unique lookup, both ways round: not found exactly
      when nothing matches, ambiguous exactly when two different shapes match. */
  lemma UniqueShapeErrors(doc: Node, page: PageIndex, key: LookupKey)
    requires forall i :: 0 <= i < |page.shapes| ==> ValidPath(doc, page.shapes[i].path)
    requires StrictlySorted(Paths(page.shapes))
    ensures ShapesWith(doc, page, key).Success? ==>
      && (UniqueShape(doc, page, key) == Failure(NotFound) <==>
            forall t :: t in page.shapes ==> Matches(doc, t, key) == Success(false))
      && (UniqueShape(doc, page, key).Failure? && UniqueShape(doc, page, key) != Failure(NotFound) <==>
            exists t, u :: t in page.shapes && u in page.shapes && t != u
              && Matches(doc, t, key) == Success(true) && Matches(doc, u, key) == Success(true))
  {
    UniqueShapeNotFound(doc, page, key);
    UniqueShapeAmbiguous(doc, page, key);
  }

  lemma UniqueShapeNotFound(doc: Node, page: PageIndex, key: LookupKey)
    requires forall i :: 0 <= i < |page.shapes| ==> ValidPath(doc, page.shapes[i].path)
    ensures ShapesWith(doc, page, key).Success? ==>
      (UniqueShape(doc, page, key) == Failure(NotFound) <==>
        forall t :: t in page.shapes ==> Matches(doc, t, key) == Success(false))
  {
    var m := ShapesWith(doc, page, key);
    if m.Success? {
      var matched := m.value;
      if |matched| == 0 {
        forall t | t in page.shapes ensures Matches(doc, t, key) == Success(false) {
          assert t !in matched;
        }
      } else {
        assert matched[0] in matched;
      }
    }
  }

  lemma UniqueShapeAmbiguous(doc: Node, page: PageIndex, key: LookupKey)
    requires forall i :: 0 <= i < |page.shapes| ==> ValidPath(doc, page.shapes[i].path)
    requires StrictlySorted(Paths(page.shapes))
    ensures ShapesWith(doc, page, key).Success? ==>
      (UniqueShape(doc, page, key).Failure? && UniqueShape(doc, page, key) != Failure(NotFound) <==>
        exists t, u :: t in page.shapes && u in page.shapes && t != u
          && Matches(doc, t, key) == Success(true) && Matches(doc, u, key) == Success(true))
  {
    var m := ShapesWith(doc, page, key);
    if m.Success? {
      var matched := m.value;
      if |matched| > 1 {
        MatchingSorted(doc, page.shapes, key);
        assert matched[0] in matched && matched[1] in matched;
        SortedDistinct(matched);
      }
    }
  }

  lemma SortedDistinct(ms: seq<Shape>)
    requires |ms| > 1 && StrictlySorted(Paths(ms))
    ensures ms[0] != ms[1]
  {
    assert Paths(ms)[0] != Paths(ms)[1] by {
      LexLessIrreflexive(Paths(ms)[0]);
    }
  }

  /** A page's shapes satisfy the preconditions of the lookups. */
  lemma PageSupportsLookup(doc: Node)
    requires BuildPage(doc).Success?
    ensures var page := BuildPage(doc).value;
      (forall i :: 0 <= i < |page.shapes| ==> ValidPath(doc, page.shapes[i].path))
      && StrictlySorted(Paths(page.shapes))
  {
    PageInDocumentOrder(doc);
  }

  lemma {:induction false} LexLessIrreflexive(p: Path)
    ensures !LexLess(p, p)
    decreases |p|
  {
    if |p| > 0 {
      LexLessIrreflexive(p[1..]);
    }
  }

  // ---------------------------------------------------------------------------
  // Batch view boxes

  /** `shape_id` of a page shape. */
  function IdOf(doc: Node, s: Shape): Option<AttrValue>
    requires ValidPath(doc, s.path) && |s.path| > 0
  {
    ShapeId(doc, s.path).value
  }

  predicate ValidShapes(doc: Node, ss: seq<Shape>) {
    forall i :: 0 <= i < |ss| ==> ValidPath(doc, ss[i].path) && |ss[i].path| > 0
  }

  function IdSet(doc: Node, ss: seq<Shape>): (r: set<Option<AttrValue>>)
    requires ValidShapes(doc, ss)
    ensures forall i :: 0 <= i < |ss| ==> IdOf(doc, ss[i]) in r
    ensures forall x :: x in r ==> exists i :: 0 <= i < |ss| && IdOf(doc, ss[i]) == x
  {
    set i | 0 <= i < |ss| :: IdOf(doc, ss[i])
  }

  /** `BoundingBox.from_dom_rect` on the rectangle the page script reports for
      a shape's id. For an id no element of the rendering carries,
      `getElementById` answers null and the script itself throws, so
      `execute_script` raises before any box is built. */
  function BoxFor(doc: Node, s: Shape, boxes: Option<AttrValue> -> Option<Rect>): (r: Result<Box, Error>)
    requires ValidPath(doc, s.path) && |s.path| > 0
    ensures boxes(IdOf(doc, s)).None? <==> r == Failure(ScriptFailed)
    ensures boxes(IdOf(doc, s)).Some? ==> r == FromDomRect(boxes(IdOf(doc, s)).value)
    ensures r.Failure? ==> r.error == ScriptFailed || r.error == NegativeExtent
  {
    match boxes(IdOf(doc, s))
    case None => Failure(ScriptFailed)
    case Some(rect) => FromDomRect(rect)
  }

  /** `chosen[i]` is the first shape whose box cannot be built. */
  predicate FirstBadBox(doc: Node, chosen: seq<Shape>, boxes: Option<AttrValue> -> Option<Rect>, i: int)
    requires ValidShapes(doc, chosen)
  {
    0 <= i < |chosen| && BoxFor(doc, chosen[i], boxes).Failure? &&
    forall j :: 0 <= j < i ==> BoxFor(doc, chosen[j], boxes).Success?
  }

  /** Each of the first `k` chosen shapes holds the box built for it. */
  predicate HoldsBoxes(doc: Node, cur: Node, chosen: seq<Shape>, boxes: Option<AttrValue> -> Option<Rect>, k: nat)
    requires ValidShapes(doc, chosen) && k <= |chosen|
  {
    forall i :: 0 <= i < k ==>
      BoxFor(doc, chosen[i], boxes).Success? && ValidPath(cur, chosen[i].path)
      && StoredViewBox(cur, chosen[i].path) == Success(Some(BoxFor(doc, chosen[i], boxes).value))
  }

  /** Every element that is none of the first `k` chosen shapes keeps the box it
      had in `doc`. */
  ghost predicate KeepsOthers(doc: Node, cur: Node, chosen: seq<Shape>, k: nat)
    requires k <= |chosen|
  {
    forall q :: ValidPath(doc, q) && (forall i :: 0 <= i < k ==> chosen[i].path != q) ==>
      ValidPath(cur, q) && StoredViewBox(cur, q) == StoredViewBox(doc, q)
  }

  lemma StartHolds(doc: Node, chosen: seq<Shape>, boxes: Option<AttrValue> -> Option<Rect>)
    requires ValidShapes(doc, chosen)
    ensures OnlyViewBoxesDiffer(doc, doc) && HoldsBoxes(doc, doc, chosen, boxes, 0) && KeepsOthers(doc, doc, chosen, 0)
  {
    forall q | ValidPath(doc, q) ensures SameButViewBox(At(doc, q), At(doc, q)) {}
  }

  /** Storing the box of shape `k` keeps the boxes already stored. */
  lemma StepHolds(doc: Node, cur: Node, chosen: seq<Shape>, boxes: Option<AttrValue> -> Option<Rect>, k: nat, box: Box)
    requires ValidShapes(doc, chosen) && k < |chosen| && ValidPath(cur, chosen[k].path)
    requires HoldsBoxes(doc, cur, chosen, boxes, k) && BoxFor(doc, chosen[k], boxes) == Success(box)
    ensures HoldsBoxes(doc, StoreViewBox(cur, chosen[k].path, box), chosen, boxes, k + 1)
  {
    var next := StoreViewBox(cur, chosen[k].path, box);
    forall i | 0 <= i < k + 1
      ensures BoxFor(doc, chosen[i], boxes).Success? && ValidPath(next, chosen[i].path)
        && StoredViewBox(next, chosen[i].path) == Success(Some(BoxFor(doc, chosen[i], boxes).value))
    {
      StoreThenRead(cur, chosen[k].path, box, chosen[i].path);
    }
  }

  /** Storing the box of shape `k` changes the box of no other element. */
  lemma StepKeeps(doc: Node, cur: Node, chosen: seq<Shape>, k: nat, box: Box)
    requires k < |chosen| && ValidPath(cur, chosen[k].path)
    requires KeepsOthers(doc, cur, chosen, k)
    ensures KeepsOthers(doc, StoreViewBox(cur, chosen[k].path, box), chosen, k + 1)
  {
    var next := StoreViewBox(cur, chosen[k].path, box);
    forall q | ValidPath(doc, q) && (forall i :: 0 <= i < k + 1 ==> chosen[i].path != q)
      ensures ValidPath(next, q) && StoredViewBox(next, q) == StoredViewBox(doc, q)
    {
      StoreThenRead(cur, chosen[k].path, box, q);
    }
  }

  /** Storing a box changes only view boxes. */
  lemma StepDiffers(doc: Node, cur: Node, p: Path, box: Box)
    requires ValidPath(cur, p) && OnlyViewBoxesDiffer(doc, cur)
    ensures OnlyViewBoxesDiffer(doc, StoreViewBox(cur, p, box))
  {
    StoreThenRead(cur, p, box, p);
    OnlyViewBoxesDifferTransitive(doc, cur, StoreViewBox(cur, p, box));
  }

  /** `e` is the error of the first chosen shape whose box cannot be built. */
  predicate FailsAtFirstBadBox(doc: Node, chosen: seq<Shape>, boxes: Option<AttrValue> -> Option<Rect>, e: Error)
    requires ValidShapes(doc, chosen)
  {
    exists i :: 0 <= i < |chosen| && FirstBadBox(doc, chosen, boxes, i) && e == BoxFor(doc, chosen[i], boxes).error
  }

  /** A box that cannot be built raises the script error or ValueError for a
      negative extent, never the subset error. */
  lemma BadBoxIsNotSubsetError(doc: Node, chosen: seq<Shape>, boxes: Option<AttrValue> -> Option<Rect>, e: Error)
    requires ValidShapes(doc, chosen) && FailsAtFirstBadBox(doc, chosen, boxes, e)
    ensures e == ScriptFailed || e == NegativeExtent
  {
    var i :| 0 <= i < |chosen| && FirstBadBox(doc, chosen, boxes, i) && e == BoxFor(doc, chosen[i], boxes).error;
  }

  /** The loop of `retrieve_and_set_view_boxes_for_shape_elements`: the box of
      each chosen shape in turn, built from the rendering and stored; the first
      box that cannot be built raises. On success every chosen shape holds its
      box, every other element keeps its box, and only view boxes changed. */
  method StoreBoxes(doc: Node, chosen: seq<Shape>, boxes: Option<AttrValue> -> Option<Rect>)
    returns (r: Result<Node, Error>)
    requires ValidShapes(doc, chosen)
    ensures r.Success? <==> forall i :: 0 <= i < |chosen| ==> BoxFor(doc, chosen[i], boxes).Success?
    ensures r.Failure? ==> FailsAtFirstBadBox(doc, chosen, boxes, r.error)
    ensures r.Success? ==>
      && OnlyViewBoxesDiffer(doc, r.value)
      && HoldsBoxes(doc, r.value, chosen, boxes, |chosen|)
      && KeepsOthers(doc, r.value, chosen, |chosen|)
  {
    var cur := doc;
    var k := 0;
    StartHolds(doc, chosen, boxes);
    while k < |chosen|
      invariant 0 <= k <= |chosen|
      invariant OnlyViewBoxesDiffer(doc, cur)
      invariant HoldsBoxes(doc, cur, chosen, boxes, k)
      invariant KeepsOthers(doc, cur, chosen, k)
    {
      var box := BoxFor(doc, chosen[k], boxes);
      if box.Failure? {
        assert FirstBadBox(doc, chosen, boxes, k);
        return Failure(box.error);
      }
      var p := chosen[k].path;
      StepHolds(doc, cur, chosen, boxes, k, box.value);
      StepKeeps(doc, cur, chosen, k, box.value);
      StepDiffers(doc, cur, p, box.value);
      cur := StoreViewBox(cur, p, box.value);
      k := k + 1;
    }
    return Success(cur);
  }

  /** The selection check of `retrieve_and_set_view_boxes_for_shape_elements`:
      no selection means every page shape; a selection whose ids are not all
      ids of page shapes raises ValueError. */
  function SelectShapes(doc: Node, page: PageIndex, selected: Option<seq<Shape>>): (r: Result<seq<Shape>, Error>)
    requires ValidShapes(doc, page.shapes)
    requires selected.Some? ==> ValidShapes(doc, selected.value)
    ensures selected.None? ==> r == Success(page.shapes)
    ensures selected.Some? ==> (r.Failure? <==> !(IdSet(doc, selected.value) <= IdSet(doc, page.shapes)))
    ensures selected.Some? && r.Success? ==> r.value == selected.value
    ensures r.Failure? ==> r.error == NotASubset
  {
    if selected.None? then Success(page.shapes)
    else if IdSet(doc, selected.value) <= IdSet(doc, page.shapes) then Success(selected.value)
    else Failure(NotASubset)
  }

  /** The page lists exactly the markers of `doc`, as every page built from it
      does (`PageInDocumentOrder`). */
  ghost predicate ListsMarkersOf(doc: Node, page: PageIndex) {
    forall p :: p in Paths(page.shapes) <==> ValidPath(doc, p) && IsMarker(At(doc, p))
  }

  /** Every page built from `doc` meets the requirements of the batch: it lists
      exactly the markers of `doc`, none of them the document root. */
  lemma BuiltPageSupportsBatch(doc: Node)
    requires BuildPage(doc).Success?
    ensures ListsMarkersOf(doc, BuildPage(doc).value)
    ensures ValidShapes(doc, BuildPage(doc).value.shapes)
  {
    var page := BuildPage(doc).value;
    PageInDocumentOrder(doc);
    forall i | 0 <= i < |page.shapes| ensures |page.shapes[i].path| > 0 {
      assert Construct(doc, page.shapes[i].path).Success?;
    }
  }

  /** `retrieve_and_set_view_boxes_for_shape_elements` on a page of `doc`:
      check the selection; render the page once (`boxes` answers
      `getElementById(id).getBBox()` on that rendering, None when the script
      throws); then store the box of
      each chosen shape in turn. The subset check raises before any box is
      stored, and a box that cannot be built raises a different error. */
  method RetrieveAndSetViewBoxes(doc: Node, page: PageIndex, selected: Option<seq<Shape>>, boxes: Option<AttrValue> -> Option<Rect>)
    returns (r: Result<Node, Error>)
    requires ListsMarkersOf(doc, page) && ValidShapes(doc, page.shapes)
    requires selected.Some? ==> ValidShapes(doc, selected.value)
    ensures SelectShapes(doc, page, selected).Failure? <==> r == Failure(NotASubset)
    ensures SelectShapes(doc, page, selected).Success? ==> var chosen := SelectShapes(doc, page, selected).value;
      && (r.Success? <==> forall i :: 0 <= i < |chosen| ==> BoxFor(doc, chosen[i], boxes).Success?)
      && (r.Failure? ==> FailsAtFirstBadBox(doc, chosen, boxes, r.error))
      && (r.Success? ==>
            && OnlyViewBoxesDiffer(doc, r.value)
            && HoldsBoxes(doc, r.value, chosen, boxes, |chosen|)
            && KeepsOthers(doc, r.value, chosen, |chosen|))
  {
    var chosen :- SelectShapes(doc, page, selected);
    r := StoreBoxes(doc, chosen, boxes);
    if r.Failure? {
      BadBoxIsNotSubsetError(doc, chosen, boxes, r.error);
    }
  }
}
