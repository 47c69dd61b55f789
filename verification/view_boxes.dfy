/** The view box a `PenpotShapeElement` caches on its marker element, the
    standalone SVG a shape exports to, and the renderer that supplies missing
    boxes (src/penai/svg.py). The renderer is an oracle: given the root of an
    SVG document it answers the DOM rectangle of its `getBBox()`, or nothing. */
module ViewBoxes {
  import opened Wrappers
  import opened Values
  import opened Xml
  import opened Geometry
  import opened Shapes

  type Renderer = Node -> Option<Rect>

  const SvgNamespace := "http://www.w3.org/2000/svg"
  const AspectRatioKey := "preserveAspectRatio"
  const AspectRatioValue := Text("xMinYMin meet")

  /** Python truthiness of an attribute value: the empty string is false. */
  predicate Falsy(v: AttrValue) {
    v == Text("") || v == Numbers([])
  }

  // ---------------------------------------------------------------------------
  // Stored boxes

  /** `_default_view_box`: the marker's `viewBox` attribute, parsed when truthy. */
  function StoredViewBox(doc: Node, p: Path): (r: Result<Option<Box>, Error>)
    requires ValidPath(doc, p)
    ensures var attrs := At(doc, p).attrs;
      r == Success(None) <==> ViewBoxKey !in attrs || Falsy(attrs[ViewBoxKey])
    ensures r.Success? && r.value.Some? ==> FromViewBoxString(At(doc, p).attrs[ViewBoxKey]) == Success(r.value.value)
  {
    var attrs := At(doc, p).attrs;
    if ViewBoxKey !in attrs || Falsy(attrs[ViewBoxKey]) then Success(None)
    else
      var b :- FromViewBoxString(attrs[ViewBoxKey]);
      Success(Some(b))
  }

  /** The `_default_view_box` setter. */
  function StoreViewBox(doc: Node, p: Path, b: Box): (r: Node)
    requires ValidPath(doc, p)
    ensures ValidPath(r, p) && At(r, p).attrs == At(doc, p).attrs[ViewBoxKey := ToViewBoxString(b)]
  {
    SetAttrEffect(doc, p, ViewBoxKey, ToViewBoxString(b), p);
    SetAttr(doc, p, ViewBoxKey, ToViewBoxString(b))
  }

  /** Two documents that differ at most in `viewBox` attributes: the same
      elements, labels and every other attribute. */
  predicate SameButViewBox(x: Node, y: Node) {
    && Label(x) == Label(y)
    && |x.children| == |y.children|
    && x.attrs - {ViewBoxKey} == y.attrs - {ViewBoxKey}
  }

  ghost predicate OnlyViewBoxesDiffer(a: Node, b: Node) {
    && (forall q :: ValidPath(a, q) <==> ValidPath(b, q))
    && (forall q :: ValidPath(a, q) ==> ValidPath(b, q) && SameButViewBox(At(a, q), At(b, q)))
  }

  lemma OnlyViewBoxesDifferTransitive(a: Node, b: Node, c: Node)
    requires OnlyViewBoxesDiffer(a, b) && OnlyViewBoxesDiffer(b, c)
    ensures OnlyViewBoxesDiffer(a, c)
  {
  }

  /** Storing a box reads back as that box, and changes nothing else: other
      shapes keep their stored boxes and the document keeps its structure. */
  lemma StoreThenRead(doc: Node, p: Path, b: Box, q: Path)
    requires ValidPath(doc, p)
    ensures StoredViewBox(StoreViewBox(doc, p, b), p) == Success(Some(b))
    ensures ValidPath(doc, q) && q != p ==>
      ValidPath(StoreViewBox(doc, p, b), q) && StoredViewBox(StoreViewBox(doc, p, b), q) == StoredViewBox(doc, q)
    ensures OnlyViewBoxesDiffer(doc, StoreViewBox(doc, p, b))
  {
    var doc' := StoreViewBox(doc, p, b);
    SetAttrEffect(doc, p, ViewBoxKey, ToViewBoxString(b), p);
    ViewBoxRoundTrip(b, Text(""));
    SetAttrEffect(doc, p, ViewBoxKey, ToViewBoxString(b), q);
    forall q' | ValidPath(doc, q') || ValidPath(doc', q')
      ensures ValidPath(doc, q') && ValidPath(doc', q') && SameButViewBox(At(doc, q'), At(doc', q'))
    {
      SetAttrEffect(doc, p, ViewBoxKey, ToViewBoxString(b), q');
    }
  }

  // ---------------------------------------------------------------------------
  // Shapes survive a box update

  lemma FirstMarkerChildSame(a: Node, b: Node, c: Path, from: nat)
    requires OnlyViewBoxesDiffer(a, b) && ValidPath(a, c) && from <= |At(a, c).children|
    ensures from <= |At(b, c).children|
    ensures FirstMarkerChild(At(a, c), from) == FirstMarkerChild(At(b, c), from)
    decreases |At(a, c).children| - from
  {
    if from < |At(a, c).children| {
      AtAppend(a, c, [from]);
      AtAppend(b, c, [from]);
      assert At(At(a, c), [from]) == At(a, c).children[from];
      assert At(At(b, c), [from]) == At(b, c).children[from];
      assert Label(At(a, c + [from])) == Label(At(b, c + [from]));
      FirstMarkerChildSame(a, b, c, from + 1);
    }
  }

  lemma FindParentSame(a: Node, b: Node, c: Path)
    requires OnlyViewBoxesDiffer(a, b) && ValidPath(a, c)
    ensures ValidPath(b, c) && FindParentFrom(a, c) == FindParentFrom(b, c)
    decreases |c|
  {
    assert Label(At(a, c)) == Label(At(b, c));
    assert IsGroup(At(a, c)) == IsGroup(At(b, c));
    FirstMarkerChildSame(a, b, c, 0);
    if |c| > 0 {
      ValidPrefix(a, c, |c| - 1);
      FindParentSame(a, b, c[..|c| - 1]);
    }
  }

  /** A key in the `penpot` namespace is never the plain `viewBox` key. */
  lemma PenpotKeyIsNotViewBox(nsmap: NsMap, key: string)
    ensures NamespacedKey(nsmap, Some(PenpotPrefix), key).Success? ==>
      NamespacedKey(nsmap, Some(PenpotPrefix), key).value != ViewBoxKey
  {
    var r := NamespacedKey(nsmap, Some(PenpotPrefix), key);
    if r.Success? {
      assert r.value[0] == '{';
    }
  }

  lemma PenpotAttrSame(x: Node, y: Node, key: string)
    requires SameButViewBox(x, y)
    ensures PenpotAttr(x, key) == PenpotAttr(y, key)
  {
    assert x.nsmap == Label(x).nsmap == Label(y).nsmap == y.nsmap;
    PenpotKeyIsNotViewBox(x.nsmap, key);
    var k := NamespacedKey(x.nsmap, Some(PenpotPrefix), key);
    if k.Success? {
      assert k.value in x.attrs <==> k.value in x.attrs - {ViewBoxKey};
      assert k.value in y.attrs <==> k.value in y.attrs - {ViewBoxKey};
      if k.value in x.attrs {
        assert x.attrs[k.value] == (x.attrs - {ViewBoxKey})[k.value];
        assert y.attrs[k.value] == (y.attrs - {ViewBoxKey})[k.value];
      }
    }
  }

  lemma RawParentSame(a: Node, b: Node, p: Path)
    requires OnlyViewBoxesDiffer(a, b) && ValidPath(a, p)
    ensures ValidPath(b, p) && RawParent(a, p) == RawParent(b, p)
  {
    if |p| >= 2 {
      ValidPrefix(a, p, |p| - 2);
      FindParentSame(a, b, p[..|p| - 2]);
    }
  }

  /** Shape construction, parent lookup and the parent chain only read what a box
      update leaves alone. */
  lemma {:induction false} ConstructSame(a: Node, b: Node, p: Path)
    requires OnlyViewBoxesDiffer(a, b) && ValidPath(a, p)
    ensures ValidPath(b, p)
    ensures ParentShape(a, p) == ParentShape(b, p)
    ensures AllParents(a, p) == AllParents(b, p)
    ensures Construct(a, p) == Construct(b, p)
    decreases |p|
  {
    RawParentSame(a, b, p);
    var raw := RawParent(a, p);
    if raw.Success? && raw.value.Some? {
      ConstructSame(a, b, raw.value.value);
    }
    assert ParentShape(a, p) == ParentShape(b, p);
    assert AllParents(a, p) == AllParents(b, p);
    PenpotAttrSame(At(a, p), At(b, p), "type");
  }

  // ---------------------------------------------------------------------------
  // Export to a standalone SVG

  /** `SVG.from_root_element(element, svg_attribs=…)` as its docstring
      describes it: an `svg` element is used as it is, anything else is wrapped
      in a new `svg` root whose nsmap adds the SVG namespace as default unless
      the element brings its own; the given attributes are then written onto
      the root. The code as written cannot build the new root: see
      `FromRootElementAsWritten`. */
  function FromRootElement(el: Node, svgAttribs: map<string, AttrValue>): (r: Node)
    ensures forall k :: k in svgAttribs ==> k in r.attrs && r.attrs[k] == svgAttribs[k]
    ensures el.localname == "svg" ==> r.children == el.children && Label(r) == Label(el)
    ensures el.localname != "svg" ==>
      && r.localname == "svg" && r.children == [el]
      && r.nsmap == map[None := SvgNamespace] + el.nsmap
      && r.attrs.Keys == svgAttribs.Keys
  {
    var root := if el.localname == "svg" then el
      else Node(None, "svg", None, map[None := SvgNamespace] + el.nsmap, map[], [el]);
    if |svgAttribs| > 0 then root.(attrs := root.attrs + svgAttribs) else root
  }

  /** The view box argument of `to_svg`. */
  datatype ViewBoxChoice = DefaultBox | ExplicitBox(box: Box) | NoBox

  /** `get_containing_g_element()`: the marker's parent element. */
  function ContainingElement(doc: Node, p: Path): Node
    requires ValidPath(doc, p) && |p| > 0
  {
    ValidPrefix(doc, p, |p| - 1);
    At(doc, p[..|p| - 1])
  }

  /** The root attributes `to_svg` hands to `from_root_element`: a copy of the
      document root's attributes with the chosen view box and the aspect-ratio
      policy. "default" is the stored box, and no renderer is passed for it. */
  function ExportAttribs(doc: Node, p: Path, choice: ViewBoxChoice): (r: Result<map<string, AttrValue>, Error>)
    requires ValidPath(doc, p)
    ensures choice.DefaultBox? ==> (r.Success? <==> StoredViewBox(doc, p).Success? && StoredViewBox(doc, p).value.Some?)
    ensures !choice.DefaultBox? ==> r.Success?
    ensures r.Success? ==> AspectRatioKey in r.value && r.value[AspectRatioKey] == AspectRatioValue
    ensures r.Success? && choice.NoBox? && ViewBoxKey in doc.attrs ==>
      ViewBoxKey in r.value && r.value[ViewBoxKey] == doc.attrs[ViewBoxKey]
    ensures r.Success? && choice.ExplicitBox? ==>
      ViewBoxKey in r.value && r.value[ViewBoxKey] == ToViewBoxString(choice.box)
    ensures r.Success? && choice.DefaultBox? ==>
      ViewBoxKey in r.value && r.value[ViewBoxKey] == ToViewBoxString(StoredViewBox(doc, p).value.value)
  {
    var box :- match choice
      case DefaultBox => (match StoredViewBox(doc, p)
        case Failure(e) => Failure(e)
        case Success(None) => Failure(NoRenderer)
        case Success(Some(b)) => Success(Some(b)))
      case ExplicitBox(b) => Success(Some(b))
      case NoBox => Success(None);
    var withBox := if box.Some? then doc.attrs[ViewBoxKey := ToViewBoxString(box.value)] else doc.attrs;
    Success(withBox[AspectRatioKey := AspectRatioValue])
  }

  /** `PenpotShapeElement.to_svg`, with `from_root_element` wrapping the
      containing group as its docstring describes: the group exported under a
      copy of the document root's attributes, with the chosen view box and a
      fixed aspect-ratio policy. */
  function ShapeToSvg(doc: Node, p: Path, choice: ViewBoxChoice): (r: Result<Node, Error>)
    requires ValidPath(doc, p) && |p| > 0
    ensures choice.DefaultBox? ==> (r.Success? <==> StoredViewBox(doc, p).Success? && StoredViewBox(doc, p).value.Some?)
    ensures !choice.DefaultBox? ==> r.Success?
    ensures r.Success? ==> AspectRatioKey in r.value.attrs && r.value.attrs[AspectRatioKey] == AspectRatioValue
    ensures r.Success? && choice.NoBox? && ViewBoxKey in doc.attrs ==>
      ViewBoxKey in r.value.attrs && r.value.attrs[ViewBoxKey] == doc.attrs[ViewBoxKey]
    ensures r.Success? && choice.ExplicitBox? ==>
      ViewBoxKey in r.value.attrs && r.value.attrs[ViewBoxKey] == ToViewBoxString(choice.box)
    ensures r.Success? && choice.DefaultBox? ==>
      ViewBoxKey in r.value.attrs && r.value.attrs[ViewBoxKey] == ToViewBoxString(StoredViewBox(doc, p).value.value)
  {
    var attribs :- ExportAttribs(doc, p, choice);
    Success(FromRootElement(ContainingElement(doc, p), attribs))
  }

  /** `to_svg()` reports the shape's stored box (or the box asked for) as the
      view box of the exported document. */
  lemma ToSvgReportsStoredBox(doc: Node, p: Path, b: Box)
    requires ValidPath(doc, p) && |p| > 0
    ensures StoredViewBox(doc, p) == Success(Some(b)) ==>
      ShapeToSvg(doc, p, DefaultBox).Success? && GetViewBox(ShapeToSvg(doc, p, DefaultBox).value) == Success(b)
    ensures GetViewBox(ShapeToSvg(doc, p, ExplicitBox(b)).value) == Success(b)
  {
    ViewBoxRoundTrip(b, Text(""));
  }

  // ---------------------------------------------------------------------------
  // Default view boxes

  /** `retrieve_default_view_box` on `to_svg(view_box=None)`: render, then build
      a box from the DOM rectangle. */
  function RenderedBox(doc: Node, p: Path, renderer: Renderer): (r: Result<Box, Error>)
    requires ValidPath(doc, p) && |p| > 0
    ensures renderer(ShapeToSvg(doc, p, NoBox).value).None? ==> r == Failure(RenderFailed)
    ensures r.Success? ==>
      renderer(ShapeToSvg(doc, p, NoBox).value).Some? && FromDomRect(renderer(ShapeToSvg(doc, p, NoBox).value).value) == r
    ensures var rendered := renderer(ShapeToSvg(doc, p, NoBox).value);
      rendered.Some? ==> r == FromDomRect(rendered.value)
    ensures var rendered := renderer(ShapeToSvg(doc, p, NoBox).value);
      rendered.Some? ==> (r.Success? <==> rendered.value.2 >= 0.0 && rendered.value.3 >= 0.0)
  {
    var svg := ShapeToSvg(doc, p, NoBox).value;
    match renderer(svg)
    case None => Failure(RenderFailed)
    case Some(rect) => FromDomRect(rect)
  }

  /** `set_default_view_box(bbox, web_driver)`: an explicit box is stored as it
      is; otherwise a renderer is required and its box is stored. */
  function SetDefaultViewBox(doc: Node, p: Path, bbox: Option<Box>, renderer: Option<Renderer>): (r: Result<Node, Error>)
    requires ValidPath(doc, p) && |p| > 0
    ensures bbox.Some? ==> r == Success(StoreViewBox(doc, p, bbox.value))
    ensures bbox.None? && renderer.None? ==> r == Failure(NoRenderer)
    ensures r.Success? ==> exists b: Box :: r.value == StoreViewBox(doc, p, b)
    ensures bbox.None? && renderer.Some? ==>
      var rendered := RenderedBox(doc, p, renderer.value);
      && (r.Success? <==> rendered.Success?)
      && (r.Success? ==> r.value == StoreViewBox(doc, p, rendered.value))
      && (r.Failure? ==> r.error == rendered.error)
  {
    match bbox
    case Some(b) => Success(StoreViewBox(doc, p, b))
    case None =>
      match renderer
      case None => Failure(NoRenderer)
      case Some(render) =>
        var b :- RenderedBox(doc, p, render);
        Success(StoreViewBox(doc, p, b))
  }

  /** `get_default_view_box(web_driver)`: the stored box, or else one derived with
      the renderer and stored; the result pairs the box with the document after
      the call. A stored view box that cannot be read raises. */
  function GetDefaultViewBox(doc: Node, p: Path, renderer: Option<Renderer>): (r: Result<(Box, Node), Error>)
    requires ValidPath(doc, p) && |p| > 0
    ensures StoredViewBox(doc, p).Success? && StoredViewBox(doc, p).value.Some? ==>
      r == Success((StoredViewBox(doc, p).value.value, doc))
    ensures StoredViewBox(doc, p) == Success(None) && renderer.None? ==> r == Failure(NoRenderer)
    ensures StoredViewBox(doc, p).Failure? ==> r == Failure(StoredViewBox(doc, p).error)
    ensures StoredViewBox(doc, p) == Success(None) && renderer.Some? ==>
      var rendered := RenderedBox(doc, p, renderer.value);
      && (r.Success? <==> rendered.Success?)
      && (r.Success? ==> r.value == (rendered.value, StoreViewBox(doc, p, rendered.value)))
      && (r.Failure? ==> r.error == rendered.error)
  {
    var stored :- StoredViewBox(doc, p);
    match stored
    case Some(b) => Success((b, doc))
    case None =>
      match renderer
      case None => Failure(NoRenderer)
      case Some(render) =>
        var b :- RenderedBox(doc, p, render);
        Success((b, StoreViewBox(doc, p, b)))
  }

  /** Once `get_default_view_box` has answered, the box is stored: a later call
      answers the same without a renderer, and the shapes of the document are
      as they were. */
  lemma GetDefaultViewBoxCaches(doc: Node, p: Path, renderer: Option<Renderer>)
    requires ValidPath(doc, p) && |p| > 0 && GetDefaultViewBox(doc, p, renderer).Success?
    ensures var (b, doc') := GetDefaultViewBox(doc, p, renderer).value;
      ValidPath(doc', p) && StoredViewBox(doc', p) == Success(Some(b))
      && OnlyViewBoxesDiffer(doc, doc')
      && GetDefaultViewBox(doc', p, None) == Success((b, doc'))
  {
    var (b, doc') := GetDefaultViewBox(doc, p, renderer).value;
    if StoredViewBox(doc, p).value.None? {
      StoreThenRead(doc, p, b, p);
    } else {
      assert doc' == doc;
    }
  }

  /** The "default" view box of `to_svg` is `get_default_view_box()` without a
      renderer. */
  lemma ToSvgDefaultIsStored(doc: Node, p: Path)
    requires ValidPath(doc, p) && |p| > 0
    ensures ShapeToSvg(doc, p, DefaultBox).Success? <==> GetDefaultViewBox(doc, p, None).Success?
    ensures GetDefaultViewBox(doc, p, None).Success? ==>
      ShapeToSvg(doc, p, DefaultBox) == ShapeToSvg(doc, p, ExplicitBox(GetDefaultViewBox(doc, p, None).value.0))
  {
  }

  /** Setting a box, explicitly or through the renderer, makes later gets return
      it without a renderer and leaves every shape as it was. */
  /** A renderer that reports a rectangle of non-negative extent for the export
      makes `set_default_view_box` store exactly that rectangle as the view box. */
  lemma RenderedRectIsStored(doc: Node, p: Path, renderer: Renderer, rect: Rect)
    requires ValidPath(doc, p) && |p| > 0
    requires renderer(ShapeToSvg(doc, p, NoBox).value) == Some(rect) && rect.2 >= 0.0 && rect.3 >= 0.0
    ensures SetDefaultViewBox(doc, p, None, Some(renderer)).Success?
    ensures StoredViewBox(SetDefaultViewBox(doc, p, None, Some(renderer)).value, p).Success?
    ensures var stored := StoredViewBox(SetDefaultViewBox(doc, p, None, Some(renderer)).value, p).value;
      stored.Some? && (stored.value.x, stored.value.y, stored.value.width, stored.value.height) == rect
  {
    StoreThenRead(doc, p, RenderedBox(doc, p, renderer).value, p);
  }

  lemma SetThenGet(doc: Node, p: Path, bbox: Option<Box>, renderer: Option<Renderer>, q: Path)
    requires ValidPath(doc, p) && |p| > 0 && SetDefaultViewBox(doc, p, bbox, renderer).Success?
    ensures var doc' := SetDefaultViewBox(doc, p, bbox, renderer).value;
      && ValidPath(doc', p)
      && GetDefaultViewBox(doc', p, None).Success?
      && GetDefaultViewBox(doc', p, None).value.1 == doc'
      && (bbox.Some? ==> GetDefaultViewBox(doc', p, None).value.0 == bbox.value)
      && (bbox.None? ==> renderer.Some? && GetDefaultViewBox(doc', p, None).value.0 == RenderedBox(doc, p, renderer.value).value)
      && (ValidPath(doc, q) ==> ValidPath(doc', q) && Construct(doc', q) == Construct(doc, q))
  {
    var doc' := SetDefaultViewBox(doc, p, bbox, renderer).value;
    var b: Box :| doc' == StoreViewBox(doc, p, b);
    StoreThenRead(doc, p, b, q);
    if bbox.Some? {
      StoreThenRead(doc, p, bbox.value, q);
    }
    if ValidPath(doc, q) {
      ConstructSame(doc, doc', q);
    }
  }

  // ---------------------------------------------------------------------------
  // Export as written

  /** `SVG.from_root_element` as written: the new root for an element other
      than `svg` comes from `BetterElement.create`, which neither
      `BetterElement`, its base class `CustomElement` nor lxml's `ElementBase`
      defines, so the lookup raises AttributeError. An `svg` element is used
      as it is. */
  function FromRootElementAsWritten(el: Node, svgAttribs: map<string, AttrValue>): (r: Result<Node, Error>)
    ensures r.Success? <==> el.localname == "svg"
    ensures r.Success? ==> r.value == FromRootElement(el, svgAttribs)
    ensures r.Failure? ==> r.error == UndefinedAttribute("create")
  {
    if el.localname == "svg" then Success(FromRootElement(el, svgAttribs))
    else Failure(UndefinedAttribute("create"))
  }

  /** `to_svg` as written: the view box is resolved first, then the containing
      group goes through `FromRootElementAsWritten`. It agrees with `ShapeToSvg`
      when the containing element is an `svg`, and fails otherwise; when
      `ShapeToSvg` would succeed, the failure is the missing `create`. */
  function ShapeToSvgAsWritten(doc: Node, p: Path, choice: ViewBoxChoice): (r: Result<Node, Error>)
    requires ValidPath(doc, p) && |p| > 0
    ensures ContainingElement(doc, p).localname == "svg" ==> r == ShapeToSvg(doc, p, choice)
    ensures ContainingElement(doc, p).localname != "svg" ==> r.Failure?
    ensures ContainingElement(doc, p).localname != "svg" && ShapeToSvg(doc, p, choice).Success? ==>
      r == Failure(UndefinedAttribute("create"))
  {
    var attribs :- ExportAttribs(doc, p, choice);
    FromRootElementAsWritten(ContainingElement(doc, p), attribs)
  }

  /** `retrieve_default_view_box` on `to_svg(view_box=None)` as written. */
  function RenderedBoxAsWritten(doc: Node, p: Path, renderer: Renderer): (r: Result<Box, Error>)
    requires ValidPath(doc, p) && |p| > 0
    ensures ContainingElement(doc, p).localname == "svg" ==> r == RenderedBox(doc, p, renderer)
    ensures ContainingElement(doc, p).localname != "svg" ==> r == Failure(UndefinedAttribute("create"))
  {
    var svg :- ShapeToSvgAsWritten(doc, p, NoBox);
    match renderer(svg)
    case None => Failure(RenderFailed)
    case Some(rect) => FromDomRect(rect)
  }

  /** `set_default_view_box` as written: only the renderer path exports, so
      only it can hit the missing `create`. */
  function SetDefaultViewBoxAsWritten(doc: Node, p: Path, bbox: Option<Box>, renderer: Option<Renderer>): (r: Result<Node, Error>)
    requires ValidPath(doc, p) && |p| > 0
    ensures bbox.Some? || renderer.None? || ContainingElement(doc, p).localname == "svg" ==>
      r == SetDefaultViewBox(doc, p, bbox, renderer)
    ensures bbox.None? && renderer.Some? && ContainingElement(doc, p).localname != "svg" ==>
      r == Failure(UndefinedAttribute("create"))
  {
    match bbox
    case Some(b) => Success(StoreViewBox(doc, p, b))
    case None =>
      match renderer
      case None => Failure(NoRenderer)
      case Some(render) =>
        var b :- RenderedBoxAsWritten(doc, p, render);
        Success(StoreViewBox(doc, p, b))
  }

  /** `get_default_view_box` as written: a stored box is returned as before;
      deriving a missing one with a renderer hits the missing `create` unless
      the containing element is an `svg`. */
  function GetDefaultViewBoxAsWritten(doc: Node, p: Path, renderer: Option<Renderer>): (r: Result<(Box, Node), Error>)
    requires ValidPath(doc, p) && |p| > 0
    ensures StoredViewBox(doc, p) != Success(None) || renderer.None? || ContainingElement(doc, p).localname == "svg" ==>
      r == GetDefaultViewBox(doc, p, renderer)
    ensures StoredViewBox(doc, p) == Success(None) && renderer.Some? && ContainingElement(doc, p).localname != "svg" ==>
      r == Failure(UndefinedAttribute("create"))
  {
    var stored :- StoredViewBox(doc, p);
    match stored
    case Some(b) => Success((b, doc))
    case None =>
      match renderer
      case None => Failure(NoRenderer)
      case Some(render) =>
        var b :- RenderedBoxAsWritten(doc, p, render);
        Success((b, StoreViewBox(doc, p, b)))
  }

  const SvgPenpotNsMap: NsMap := map[None := SvgNamespace, Some(PenpotPrefix) := "https://penpot.app/xmlns"]

  /** `<svg><g id="a"><penpot:shape/></g></svg>`: a shape inside a group, as
      every Penpot page lays its shapes out. */
  function GroupedShapeDoc(): Node {
    var shape := Node(Some("https://penpot.app/xmlns"), "shape", Some(PenpotPrefix), SvgPenpotNsMap, map[], []);
    var g := Node(Some(SvgNamespace), "g", None, SvgPenpotNsMap, map["id" := Text("a")], [shape]);
    Node(Some(SvgNamespace), "svg", None, SvgPenpotNsMap, map[], [g])
  }

  /** As written, the shape of `GroupedShapeDoc` cannot be exported with any
      view-box choice, and its box cannot be derived with any renderer, while
      the corrected export of the same shape succeeds. */
  lemma ExportInGroupFails(choice: ViewBoxChoice, renderer: Renderer)
    ensures ValidPath(GroupedShapeDoc(), [0, 0])
    ensures ShapeToSvgAsWritten(GroupedShapeDoc(), [0, 0], choice).Failure?
    ensures ShapeToSvg(GroupedShapeDoc(), [0, 0], NoBox).Success?
    ensures SetDefaultViewBoxAsWritten(GroupedShapeDoc(), [0, 0], None, Some(renderer)) == Failure(UndefinedAttribute("create"))
    ensures GetDefaultViewBoxAsWritten(GroupedShapeDoc(), [0, 0], Some(renderer)) == Failure(UndefinedAttribute("create"))
  {
    var doc := GroupedShapeDoc();
    assert ValidPath(doc, [0]) && At(doc, [0]) == doc.children[0];
    assert [0, 0][..1] == [0];
    assert ContainingElement(doc, [0, 0]).localname == "g";
    assert ViewBoxKey !in At(doc, [0, 0]).attrs;
  }
}
