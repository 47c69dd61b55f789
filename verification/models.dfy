/** The file-level model of src/penai/models.py: component dimensions, the
    component dictionary keyed by id, the SVG that shows one component, and a
    project's main file. */
module Models {
  import opened Wrappers
  import opened Values
  import opened Xml
  import opened OrderedMaps
  import Geometry
  import Chars

  datatype DimensionsValue = Dimensions(width: real, height: real)

  /** Every `Dimensions` object passed its `__post_init__` check. */
  type Dimensions = d: DimensionsValue | d.width >= 0.0 && d.height >= 0.0 witness Dimensions(0.0, 0.0)

  /** The dataclass constructor followed by `__post_init__`. */
  function MakeDimensions(width: real, height: real): (r: Result<Dimensions, Error>)
    ensures r.Success? <==> width >= 0.0 && height >= 0.0
    ensures r.Success? ==> r.value.width == width && r.value.height == height
    ensures r.Failure? ==> r.error == NegativeExtent
  {
    if width < 0.0 || height < 0.0 then Failure(NegativeExtent) else Success(Dimensions(width, height))
  }

  /** `from_bbox`: the extent between the left/top and right/bottom edges. */
  function FromBBox(left: real, top: real, right: real, bottom: real): (r: Result<Dimensions, Error>)
    ensures r.Success? <==> left <= right && top <= bottom
    ensures r.Success? ==> left + r.value.width == right && top + r.value.height == bottom
  {
    MakeDimensions(right - left, bottom - top)
  }

  /** The text or numbers of a view-box attribute, split and converted with
      `float` piece by piece, then handed to `from_bbox` as four positional
      arguments: a blank string gives no arguments at all. */
  function ViewBoxArguments(v: AttrValue): (r: Result<seq<real>, Error>)
    ensures v.Numbers? ==> r == Success(v.ns)
    ensures v.Text? ==> (r == Success([]) <==> Chars.AllSpace(v.s))
  {
    match v
    case Text(s) => if Chars.AllSpace(s) then Success([]) else Failure(NotANumber)
    case Numbers(ns) => Success(ns)
  }

  /** `Dimensions.from_view_box_string` as written: the four numbers are read
      as left, top, right and bottom, although a view box lists x, y, width and
      height. */
  function FromViewBoxString(v: AttrValue): (r: Result<Dimensions, Error>)
    ensures v.Numbers? && |v.ns| == 4 ==>
      (r.Success? <==> v.ns[0] <= v.ns[2] && v.ns[1] <= v.ns[3]) &&
      (r.Success? ==> r.value.width == v.ns[2] - v.ns[0] && r.value.height == v.ns[3] - v.ns[1])
    ensures v.Numbers? && |v.ns| != 4 ==> r == Failure(ArityMismatch(4, |v.ns|))
    ensures v.Text? ==> r.Failure?
  {
    var args :- ViewBoxArguments(v);
    if |args| != 4 then Failure(ArityMismatch(4, |args|)) else FromBBox(args[0], args[1], args[2], args[3])
  }

  /** The reading the view-box format calls for: the third and fourth numbers
      are the width and height. */
  function FromViewBoxStringIntended(v: AttrValue): (r: Result<Dimensions, Error>)
    ensures v.Numbers? && |v.ns| == 4 ==>
      (r.Success? <==> v.ns[2] >= 0.0 && v.ns[3] >= 0.0) &&
      (r.Success? ==> r.value.width == v.ns[2] && r.value.height == v.ns[3])
    ensures v.Numbers? && |v.ns| != 4 ==> r == Failure(ArityMismatch(4, |v.ns|))
    ensures v.Text? ==> r.Failure?
  {
    var args :- ViewBoxArguments(v);
    if |args| != 4 then Failure(ArityMismatch(4, |args|)) else MakeDimensions(args[2], args[3])
  }

  /** `to_view_box_string`: a view box at the origin, "0 0 width height". */
  function ToViewBoxString(d: Dimensions): (v: AttrValue)
    ensures v.Numbers? && |v.ns| == 4
    ensures v.ns[0] == 0.0 && v.ns[1] == 0.0
  {
    Numbers([0.0, 0.0, d.width, d.height])
  }

  /** Dimensions survive their own view-box string under both readings, because
      the string they write starts at the origin. */
  lemma DimensionsRoundTrip(d: Dimensions)
    ensures FromViewBoxString(ToViewBoxString(d)) == Success(d)
    ensures FromViewBoxStringIntended(ToViewBoxString(d)) == Success(d)
  {
  }

  /** The two readings agree exactly on view boxes at the origin. */
  lemma ReadingsAgreeAtOrigin(v: AttrValue)
    requires v.Numbers? && |v.ns| == 4 && v.ns[0] == 0.0 && v.ns[1] == 0.0
    ensures FromViewBoxString(v) == FromViewBoxStringIntended(v)
  {
  }

  /** Read as written, a view box away from the origin loses its offset from the
      extent: "10 20 100 50" becomes 90 by 30, and "10 20 5 5" is rejected
      although it describes a valid 5 by 5 box. */
  lemma OffsetViewBoxMisread()
    ensures FromViewBoxString(Numbers([10.0, 20.0, 100.0, 50.0])) == Success(Dimensions(90.0, 30.0))
    ensures FromViewBoxStringIntended(Numbers([10.0, 20.0, 100.0, 50.0])) == Success(Dimensions(100.0, 50.0))
    ensures FromViewBoxString(Numbers([10.0, 20.0, 5.0, 5.0])) == Failure(NegativeExtent)
    ensures FromViewBoxStringIntended(Numbers([10.0, 20.0, 5.0, 5.0])) == Success(Dimensions(5.0, 5.0))
  {
  }

  /** A component: its id, its name, the raw SVG root it was exported with and
      its dimensions. */
  datatype Component = Component(id: string, name: string, container: Node, dimensions: Dimensions)

  /** The `<use href="#id"/>` element that makes the component visible; a new
      element sees the namespaces in scope where it is appended. */
  function UseElement(id: string, nsmap: NsMap): Node {
    Node(None, "use", None, nsmap, map["href" := Text("#" + id)], [])
  }

  /** `PenpotComponent.to_svg`: a copy of the container root with a reference
      to the component appended and its view box set to the dimensions. The
      container is an immutable value, so the original is left as it was. */
  function ToSvg(c: Component): (r: Node)
    ensures Label(r) == Label(c.container)
    ensures |r.children| == |c.container.children| + 1
    ensures r.children[..|c.container.children|] == c.container.children
    ensures var u := r.children[|c.container.children|];
      u.localname == "use" && u.ns == None && u.children == [] &&
      u.attrs.Keys == {"href"} && u.attrs["href"] == Text("#" + c.id)
    ensures Geometry.ViewBoxKey in r.attrs && r.attrs[Geometry.ViewBoxKey] == ToViewBoxString(c.dimensions)
    ensures forall k :: k in c.container.attrs && k != Geometry.ViewBoxKey ==> k in r.attrs && r.attrs[k] == c.container.attrs[k]
    ensures forall k :: k in r.attrs && k != Geometry.ViewBoxKey ==> k in c.container.attrs
  {
    var root := c.container;
    root.(children := root.children + [UseElement(c.id, root.nsmap)],
          attrs := root.attrs[Geometry.ViewBoxKey := ToViewBoxString(c.dimensions)])
  }

  /** The SVG of a component reads back, through the SVG view-box accessor, as
      a box at the origin with the component's width and height, and through
      the dimensions reader as the component's dimensions. */
  lemma ToSvgViewBox(c: Component)
    ensures Geometry.GetViewBox(ToSvg(c)) == Success(Geometry.BoundingBox(0.0, 0.0, c.dimensions.width, c.dimensions.height))
    ensures FromViewBoxString(ToSvg(c).attrs[Geometry.ViewBoxKey]) == Success(c.dimensions)
  {
    DimensionsRoundTrip(c.dimensions);
  }

  /** `PenpotComponentDict`: component id to component, in insertion order. */
  type ComponentDict = Dict<string, Component>

  /** `get_component_names`. */
  function ComponentNames(d: ComponentDict): (names: seq<string>)
    ensures |names| == |d|
    ensures forall i :: 0 <= i < |d| ==> names[i] == d[i].1.name
  {
    if |d| == 0 then [] else ComponentNames(d[..|d| - 1]) + [d[|d| - 1].1.name]
  }

  /** The component at index `i` is the first entry in dict order named `name`. */
  predicate FirstNamed(d: ComponentDict, name: string, i: int) {
    0 <= i < |d| && d[i].1.name == name && forall j :: 0 <= j < i ==> d[j].1.name != name
  }

  /** `get_by_name` without its cache wrapper: the first component in dict
      order with that name; a KeyError when there is none. */
  function GetByName(d: ComponentDict, name: string): (r: Result<Component, Error>)
    ensures r.Failure? <==> forall i :: 0 <= i < |d| ==> d[i].1.name != name
    ensures r.Failure? ==> r.error == NotFound
    ensures r.Success? ==> exists i :: FirstNamed(d, name, i) && r.value == d[i].1
  {
    if |d| == 0 then Failure(NotFound)
    else if d[0].1.name == name then
      assert FirstNamed(d, name, 0);
      Success(d[0].1)
    else
      var r := GetByName(d[1..], name);
      if r.Success? then
        var i :| FirstNamed(d[1..], name, i) && r.value == d[1..][i].1;
        assert FirstNamed(d, name, i + 1);
        r
      else
        assert forall i :: 0 < i < |d| ==> d[i].1.name == d[1..][i - 1].1.name;
        r
  }

  /** A name is found exactly when it is one of the component names. */
  lemma GetByNameFindsListedNames(d: ComponentDict, name: string)
    ensures GetByName(d, name).Success? <==> name in ComponentNames(d)
  {
    var names := ComponentNames(d);
    if name in names {
      var i :| 0 <= i < |names| && names[i] == name;
      assert d[i].1.name == name;
    }
  }

  /** `get_by_name` as written, behind `functools.cache`: the cache hashes its
      arguments, `self` included, before the body is reached, and a `dict`
      subclass that defines no `__hash__` of its own (as `PenpotComponentDict`
      does not) inherits `__hash__ = None`. Every call raises TypeError, also
      for the names the dictionary holds. */
  function GetByNameAsWritten(d: ComponentDict, name: string): (r: Result<Component, Error>)
    ensures r == Failure(Unhashable)
    ensures GetByName(d, name).Success? ==> r != GetByName(d, name)
  {
    Failure(Unhashable)
  }

  /** A dictionary holding a component named "button": the uncached lookup
      finds it and the cached one fails before looking. */
  lemma CachedLookupFails(c: Component)
    requires c.name == "button"
    ensures GetByName([(c.id, c)], "button") == Success(c)
    ensures GetByNameAsWritten([(c.id, c)], "button") == Failure(Unhashable)
  {
  }

  function IdPairs(cs: seq<Component>): (ps: seq<(string, Component)>)
    ensures |ps| == |cs|
    ensures forall i :: 0 <= i < |cs| ==> ps[i] == (cs[i].id, cs[i])
  {
    if |cs| == 0 then [] else IdPairs(cs[..|cs| - 1]) + [(cs[|cs| - 1].id, cs[|cs| - 1])]
  }

  /** `get_penpot_component_dict`: the components keyed by id. */
  function ComponentDictOf(cs: seq<Component>): (d: ComponentDict)
    ensures UniqueKeys(d)
  {
    FromPairs(IdPairs(cs))
  }

  /** `cs[j]` has id `k` and no later component has it. */
  predicate LastWithId(cs: seq<Component>, j: int, k: string) {
    0 <= j < |cs| && cs[j].id == k && forall l :: j < l < |cs| ==> cs[l].id != k
  }

  /** Every id of the list is a key, no other key is, and a repeated id keeps
      the component listed last. */
  lemma ComponentDictLastWins(cs: seq<Component>, k: string)
    ensures Get(ComponentDictOf(cs), k).Some? <==> exists i :: 0 <= i < |cs| && cs[i].id == k
    ensures Get(ComponentDictOf(cs), k).Some? ==>
      exists j :: LastWithId(cs, j, k) && Get(ComponentDictOf(cs), k).value == cs[j]
  {
    var ps := IdPairs(cs);
    FromPairsLastWins(ps, k);
    LastValueSome(ps, k);
    if exists i :: 0 <= i < |cs| && cs[i].id == k {
      var i :| 0 <= i < |cs| && cs[i].id == k;
      assert ps[i].0 == k;
    }
    if LastValue(ps, k).Some? {
      LastValueIsLast(ps, k);
      var j :| IsLastPair(ps, j, k, LastValue(ps, k).value);
      assert LastWithId(cs, j, k);
    }
  }

  /** A file of a project; its pages are not part of this model. */
  datatype PenpotFile = PenpotFile(id: string, name: string, components: ComponentDict)

  datatype PenpotProject = PenpotProject(mainFileId: string, files: Dict<string, PenpotFile>)

  /** `get_main_file`: the file stored under the main file id, a KeyError if
      there is none. */
  function GetMainFile(p: PenpotProject): (r: Result<PenpotFile, Error>)
    ensures r.Failure? <==> forall i :: 0 <= i < |p.files| ==> p.files[i].0 != p.mainFileId
    ensures r.Failure? ==> r.error == MissingKey(p.mainFileId)
    ensures r.Success? ==> exists i :: 0 <= i < |p.files| && p.files[i] == (p.mainFileId, r.value)
  {
    match Get(p.files, p.mainFileId)
    case None => Failure(MissingKey(p.mainFileId))
    case Some(f) => Success(f)
  }

  /** With unique file ids, the main file is the one stored under its id, and
      storing a file under the main id makes it the main file. */
  lemma MainFileIsStored(p: PenpotProject, i: nat, f: PenpotFile)
    requires UniqueKeys(p.files) && i < |p.files| && p.files[i].0 == p.mainFileId
    ensures GetMainFile(p) == Success(p.files[i].1)
    ensures GetMainFile(p.(files := Put(p.files, p.mainFileId, f))) == Success(f)
  {
    GetUnique(p.files, i);
  }
}
