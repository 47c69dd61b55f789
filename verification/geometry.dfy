/** `BoundingBox` of src/penai/svg.py and the view-box attribute of an SVG root. */
module Geometry {
  import opened Wrappers
  import opened Values
  import opened Xml
  import Chars

  datatype BoundingBox = BoundingBox(x: real, y: real, width: real, height: real)

  /** Every `BoundingBox` object passed its `__post_init__` check. */
  type Box = b: BoundingBox | b.width >= 0.0 && b.height >= 0.0 witness BoundingBox(0.0, 0.0, 0.0, 0.0)

  /** A DOMRect as a renderer reports it: x, y, width, height. */
  type Rect = (real, real, real, real)

  const ViewBoxKey := "viewBox"

  /** The dataclass constructor followed by `__post_init__`. */
  function MakeBox(x: real, y: real, width: real, height: real): (r: Result<Box, Error>)
    ensures r.Success? <==> width >= 0.0 && height >= 0.0
    ensures r.Success? ==> r.value == BoundingBox(x, y, width, height)
    ensures r.Failure? ==> r.error == NegativeExtent
  {
    if width < 0.0 || height < 0.0 then Failure(NegativeExtent)
    else Success(BoundingBox(x, y, width, height))
  }

  /** `from_dom_rect`. */
  function FromDomRect(rect: Rect): (r: Result<Box, Error>)
    ensures r.Success? ==> (r.value.x, r.value.y, r.value.width, r.value.height) == rect
    ensures r.Failure? <==> rect.2 < 0.0 || rect.3 < 0.0
  {
    MakeBox(rect.0, rect.1, rect.2, rect.3)
  }

  function Max(a: real, b: real): real {
    if a >= b then a else b
  }

  /** The margin `with_margin` applies: absolute, or relative to the longest edge. */
  function AbsoluteMargin(b: Box, margin: real, relative: bool): real {
    if relative then margin * Max(b.width, b.height) else margin
  }

  /** `with_margin`: the box grown by the margin on every side; the constructor
      rejects a result whose width or height became negative. */
  function WithMargin(b: Box, margin: real, relative: bool): (r: Result<Box, Error>)
    ensures var m := AbsoluteMargin(b, margin, relative);
      r.Success? <==> b.width + 2.0 * m >= 0.0 && b.height + 2.0 * m >= 0.0
    ensures r.Success? ==>
      var m := AbsoluteMargin(b, margin, relative);
      r.value.x == b.x - m && r.value.y == b.y - m && r.value.width == b.width + 2.0 * m && r.value.height == b.height + 2.0 * m
  {
    var m := AbsoluteMargin(b, margin, relative);
    MakeBox(b.x - m, b.y - m, b.width + 2.0 * m, b.height + 2.0 * m)
  }

  function Center(b: BoundingBox): (real, real) {
    (b.x + b.width / 2.0, b.y + b.height / 2.0)
  }

  predicate Contains(outer: BoundingBox, inner: BoundingBox) {
    outer.x <= inner.x && outer.y <= inner.y &&
    inner.x + inner.width <= outer.x + outer.width && inner.y + inner.height <= outer.y + outer.height
  }

  /** A margin keeps the centre; a non-negative one yields a box that contains
      the original, and a zero one gives the original back. */
  lemma WithMarginGeometry(b: Box, margin: real, relative: bool)
    ensures WithMargin(b, margin, relative).Success? ==> Center(WithMargin(b, margin, relative).value) == Center(b)
    ensures margin >= 0.0 ==> WithMargin(b, margin, relative).Success? && Contains(WithMargin(b, margin, relative).value, b)
    ensures WithMargin(b, 0.0, relative) == Success(b)
  {
    var m := AbsoluteMargin(b, margin, relative);
    GrownBox(b, m);
    var g := BoundingBox(b.x - m, b.y - m, b.width + 2.0 * m, b.height + 2.0 * m);
    assert WithMargin(b, margin, relative).Success? ==> WithMargin(b, margin, relative).value == g;
    if margin >= 0.0 {
      if relative {
        MulNonNegative(margin, Max(b.width, b.height));
      }
      assert m >= 0.0;
    }
    assert AbsoluteMargin(b, 0.0, relative) == 0.0;
    GrownBox(b, 0.0);
  }

  /** The box grown by `m` on every side keeps its centre, contains the
      original when `m` is not negative, and is the original when `m` is zero. */
  lemma GrownBox(b: Box, m: real)
    ensures var g := BoundingBox(b.x - m, b.y - m, b.width + 2.0 * m, b.height + 2.0 * m);
      && Center(g) == Center(b)
      && (m >= 0.0 ==> g.width >= 0.0 && g.height >= 0.0 && Contains(g, b))
      && (m == 0.0 ==> g == b)
  {
  }

  lemma MulNonNegative(a: real, b: real)
    requires a >= 0.0 && b >= 0.0
    ensures a * b >= 0.0
  {
  }

  /** `to_view_box_string`: "x y width height". */
  function ToViewBoxString(b: BoundingBox): (v: AttrValue)
    ensures v.Numbers? && |v.ns| == 4
  {
    Numbers([b.x, b.y, b.width, b.height])
  }

  /** `from_view_box_string`: split on whitespace, `float` each piece, and call
      the four-argument constructor. */
  function FromViewBoxString(v: AttrValue): (r: Result<Box, Error>)
    ensures v.Text? && Chars.AllSpace(v.s) ==> r == Failure(ArityMismatch(4, 0))
    ensures v.Text? && !Chars.AllSpace(v.s) ==> r == Failure(NotANumber)
    ensures v.Numbers? && |v.ns| != 4 ==> r == Failure(ArityMismatch(4, |v.ns|))
  {
    match v
    case Text(s) => if Chars.AllSpace(s) then Failure(ArityMismatch(4, 0)) else Failure(NotANumber)
    case Numbers(ns) =>
      if |ns| != 4 then Failure(ArityMismatch(4, |ns|)) else MakeBox(ns[0], ns[1], ns[2], ns[3])
  }

  /** The view-box string is a faithful encoding of a box, in both directions:
      every box reads back as itself, and every readable string is the one its
      box writes. */
  lemma ViewBoxRoundTrip(b: Box, v: AttrValue)
    ensures FromViewBoxString(ToViewBoxString(b)) == Success(b)
    ensures FromViewBoxString(v).Success? ==> ToViewBoxString(FromViewBoxString(v).value) == v
  {
    if FromViewBoxString(v).Success? {
      assert v.ns == [v.ns[0], v.ns[1], v.ns[2], v.ns[3]];
    }
  }

  /** `SVG.get_view_box`: the root's viewBox attribute, parsed. */
  function GetViewBox(root: Node): (r: Result<Box, Error>)
    ensures ViewBoxKey !in root.attrs <==> r == Failure(NoViewBox)
    ensures ViewBoxKey in root.attrs ==> r == FromViewBoxString(root.attrs[ViewBoxKey])
    ensures r.Success? ==> root.attrs[ViewBoxKey] == ToViewBoxString(r.value)
  {
    ViewBoxRoundTrip(BoundingBox(0.0, 0.0, 0.0, 0.0), if ViewBoxKey in root.attrs then root.attrs[ViewBoxKey] else Text(""));
    if ViewBoxKey !in root.attrs then Failure(NoViewBox) else FromViewBoxString(root.attrs[ViewBoxKey])
  }

  /** `SVG.set_view_box`. */
  function SetViewBox(root: Node, b: Box): (r: Node)
    ensures GetViewBox(r) == Success(b)
    ensures r.children == root.children && Label(r) == Label(root)
    ensures forall k :: k != ViewBoxKey ==> (k in r.attrs <==> k in root.attrs)
    ensures forall k :: k != ViewBoxKey && k in root.attrs ==> r.attrs[k] == root.attrs[k]
  {
    ViewBoxRoundTrip(b, Text(""));
    root.(attrs := root.attrs[ViewBoxKey := ToViewBoxString(b)])
  }
}
