# penai core, modelled in Dafny

This project models the part of penai that works on Penpot's SVG exports. The
model covers:

- the namespace-aware element tree (`BetterElement`);
- bounding boxes and view boxes;
- the `<penpot:shape>` layer: shape types, the logical parent walk, the
  children scans and the page index;
- the component dictionary and project model;
- the conversion of transit values to plain Python values;
- the JSON helpers of `scripts/api.py`;
- namespace pruning, nested-key mapping and file-name cleaning;
- the prompt and message builders and the code-snippet language split;
- the two hierarchy trees of the hierarchy inference;
- the flag rewrite of the argument parser.

The Dafny code is organised in these modules:

- `Wrappers` holds `Option`, `Result` and one `Error` variant per exception
  the code raises. `Values` holds attribute values.
- `OrderedMaps` models Python dicts: insertion order, with the last
  assignment winning.
- `Xml` models the element tree, paths into it, pre-order and attribute
  update.
- `Geometry` models `BoundingBox` and the SVG root's view box.
- `Shapes` models `PenpotShapeElement`. `ViewBoxes` models the cached view
  boxes and `to_svg`. `Pages` models `PenpotPageSVG`.
- `Models` covers `Dimensions`, components, the component dictionary and
  the project.
- `Transit` models `client.transit_to_py`. `ApiTransit` models `scripts/api.py`.
- `Prune` covers namespace trimming and the extension check.
  `NestedKeys` models `apply_func_to_nested_keys`. `FileNames` models
  `fn_compatible`.
- `Prompting`, `Hierarchy` and `Flags` cover the builders, the hierarchy
  trees and the argument rewrite.

Modelling conventions:

- Python objects that are mutated in place are modelled as values: an
  operation returns the updated tree, builder or state.
- A shape is identified by the path (a sequence of child indices) of its
  marker element. Python's shape equality is element identity, and here it
  is path equality.
- Floating-point numbers are `real`. Attribute text holding numbers is a
  `Numbers` value, so float formatting and parsing are not modelled (see
  "Left out").
- The web driver that renders an SVG is a parameter: a function from a
  document to an optional DOM rectangle.

## Model

| member | source | states |
|---|---|---|
| Xml.LocalNameOfQualified | src/penai/xml.py:125-127 | the local name of a `{uri}local` tag is `local` whenever the URI contains no `}` |
| Xml.NamespacedKey | src/penai/xml.py:101-123 | without an nsmap and a namespace the key comes back bare; a namespace bound to a non-empty URI gives `{uri}key`; any other namespace raises ValueError naming it and the known prefixes |
| Xml.QueryCompatibleNsmap | src/penai/xml.py:64-68 | fails with KeyError exactly when there is no default namespace; otherwise `""` maps to the default URI, every named prefix keeps its URI, and nothing else is added |
| Xml.CachedQueryNsmap | src/penai/xml.py:64-68 | once memoised, the same dict is returned and the state is untouched; on the first read it succeeds exactly when `query_compatible_nsmap` does, the memo then holding exactly the computed map and nothing else changing, and otherwise raises the missing-default-namespace KeyError |
| Xml.FindNamespaces | src/penai/xml.py:70-76 | `find`/`findall` pass on non-empty caller namespaces as given; otherwise the memoised map, and on the first call the freshly computed query nsmap, now memoised, or its error |
| Xml.XpathNamespacesAsWritten | src/penai/xml.py:78-90 | the namespaces handed to lxml never contain `""`; without caller namespaces the memo itself is left holding the popped map |
| Xml.XpathNamespaces | src/penai/xml.py:78-90 | corrected: the same namespaces reach lxml, while the memo keeps the full map with `""` |
| Xml.XpathCorruptsFindNamespaces | src/penai/xml.py:78-90 | as written, on an element with a default namespace, a later `find` no longer sees `""` after one `xpath` call |
| Xml.XpathKeepsFindNamespaces | src/penai/xml.py:70-90 | corrected: a `find` after `xpath` sees the same namespaces as before it |
| Xml.PreorderComplete | src/penai/svg.py:516 | `iter()` visits every element of the tree |
| Xml.PreorderSorted | src/penai/svg.py:516 | `iter()` visits elements in document order: strictly increasing paths, each parent before its descendants |
| Xml.SubsequenceSorted | src/penai/svg.py:476-482 | filtering a list of shapes that is in document order leaves a list in document order |
| Xml.SetAttrEffect | src/penai/svg.py:343-346 | writing one attribute changes that attribute of that element only: every path, label, child count and other attribute stays |
| Geometry.MakeBox | src/penai/svg.py:36-41 | `__post_init__` accepts a box exactly when width and height are non-negative, and otherwise raises ValueError |
| Geometry.FromDomRect | src/penai/svg.py:69-80 | the box carries the rectangle's four numbers, and construction fails exactly on a negative width or height |
| Geometry.WithMargin | src/penai/svg.py:43-56 | the box grows by the absolute margin, or by the margin times the longest edge, on every side; it fails exactly when an extent would turn negative |
| Geometry.WithMarginGeometry | src/penai/svg.py:43-56 | a margin keeps the centre; a non-negative margin yields a box containing the original; a zero margin returns the box unchanged |
| Geometry.FromViewBoxString | src/penai/svg.py:58-60 | blank text raises the arity error (0 of 4); other text is not a number; a wrong count of numbers raises the arity error |
| Geometry.ViewBoxRoundTrip | src/penai/svg.py:58-63 | every box reads back from its view-box string, and every string that reads is the one its box writes |
| Geometry.GetViewBox | src/penai/svg.py:151-155 | raises exactly when the root has no `viewBox` attribute; otherwise the result is that attribute parsed, and a box read back is the one the attribute spells |
| Geometry.SetViewBox | src/penai/svg.py:145-146 | the root then reads back the given box; its tag, namespace map and children are unchanged, and every other attribute is kept with its value |
| Shapes.GetByTypeLiteral | src/penai/svg.py:291-300 | a resolved type is the one whose literal is the attribute; a failure lists the valid literals in declaration order |
| Shapes.TypeLiteralTable | src/penai/svg.py:273-300 | each of the eight literals resolves to its member; exactly the listed literals resolve; the error lists them in member order |
| Shapes.TypeCategories | src/penai/svg.py:259-284 | each type is exactly one of container and primitive; the containers are group, frame and bool |
| Shapes.IsGroup | src/penai/svg.py:252-253 | with no nsmap a group is the tag `g`; with a default namespace it is `{uri}g`; with namespaces but no default one the test raises |
| Shapes.PenpotAttr | src/penai/svg.py:426-428 | the value is the attribute under the key namespaced with `penpot`; KeyError naming that key exactly when the element lacks it, and the namespaced-key error when there is no `penpot` namespace |
| Shapes.NodeDepth | src/penai/svg.py:206-216 | the depth is the path length, or the distance to the given root; it fails exactly when that root is not an ancestor |
| Shapes.FirstMarkerChild | src/penai/svg.py:450-452 | the index found is the first child that is a `<penpot:shape>`; none is found exactly when no child is one |
| Shapes.FindParentFrom | src/penai/svg.py:447-454 | the found marker is a child of an ancestor of the candidate |
| Shapes.FindParentStep | src/penai/svg.py:448-453 | one step of the walk: a `g` holding a marker answers its first marker child; any other element hands the walk to its parent, or ends it with None at the root |
| Shapes.FoundUnderGroup | src/penai/svg.py:449-452 | the marker the walk finds is the first `penpot:shape` child of a `g` element |
| Shapes.NoNearerGroup | src/penai/svg.py:448-454 | no element the walk passes is a `g` holding a marker: none between the found marker's group and the start, and none up to the root when the walk answers None |
| Shapes.FindParentRule | src/penai/svg.py:447-454 | the walk answers the first marker child of the nearest `g` ancestor-or-self that has one, and None exactly when no such `g` exists |
| Shapes.WalkStopsAtGroup | src/penai/svg.py:447-454 | the upward walk from below a group with a marker child never passes that group, and stopping at the group returns its first marker child |
| Shapes.WalkPassesUp | src/penai/svg.py:448-453 | below a marker-holding group, an element holding no marker hands the walk to its parent, which is still below the group |
| Shapes.ParentViaGroup | src/penai/svg.py:446-454 | for a marker below a group whose marker is child `i`, the parent shape is that marker or a marker strictly between the group and the shape |
| Shapes.RawParent | src/penai/svg.py:446-454 | a marker at the root raises; one directly under the root has no parent; otherwise the parent's group is a strict ancestor of the containing group |
| Shapes.RawParentRule | src/penai/svg.py:446-454 | the parent is the first marker child of the nearest `g` holding a marker, searched from the parent of the containing group upwards; there is none exactly when no such `g` exists |
| Shapes.Construct | src/penai/svg.py:314-331 | a shape records its tree depth, the length of its parent chain and the type named by its `penpot:type` attribute |
| Shapes.ConstructRule | src/penai/svg.py:314-331 | `__init__` succeeds exactly when the parent chain resolves, `penpot:type` is present and its literal is known; a failure carries the error of the first failing step, in that order, and the type is the one the literal names |
| Shapes.ParentShape | src/penai/svg.py:446-454 | the result is the raw parent lookup, and a parent found is itself constructible |
| Shapes.ParentShapeRule | src/penai/svg.py:446-454 | `get_parent_shape` answers the constructible first marker child of the nearest marker-holding `g` above the containing group, or None when there is no such `g` |
| Shapes.AllParents | src/penai/svg.py:456-460 | the chain is empty without a parent, and otherwise the parent followed by the parent's own chain |
| Shapes.SubtreeComplete | src/penai/svg.py:516 | a scan from an element visits every element below it |
| Shapes.MarkerPaths | src/penai/svg.py:516-517 | keeps exactly the marker elements among the visited ones |
| Shapes.ConstructMarkers | src/penai/svg.py:516-521 | the shapes are the markers in visiting order, each constructed; the scan succeeds exactly when every marker constructs |
| Shapes.BucketsAreDepthClasses | src/penai/svg.py:512-521 | each depth bucket holds exactly the shapes of that depth in document order, and only depths that occur have a bucket |
| Shapes.FindAll | src/penai/svg.py:498-523 | the scan returns the constructed markers in order, and its depth table agrees with the shapes' own depths |
| Shapes.ScanSorted | src/penai/svg.py:512-521 | the shapes of a scan are in strict document order |
| Shapes.AllChildren | src/penai/svg.py:472-476 | a marker at the document root raises, because it has no containing group; the shapes found are in strict document order |
| Shapes.Without | src/penai/svg.py:476 | drops exactly the shape itself and keeps the other shapes in their order |
| Shapes.AllChildrenMembers | src/penai/svg.py:472-476 | the result is every marker under the containing group other than the shape itself, in strict document order |
| Shapes.WithParent | src/penai/svg.py:482 | keeps exactly the candidates whose parent shape is the given one, in their order; it succeeds exactly when every parent lookup does |
| Shapes.DirectChildren | src/penai/svg.py:479-482 | every shape reported names the shape as its parent |
| Shapes.DirectChildrenInOrder | src/penai/svg.py:479-482 | the direct children are all the children filtered in order, so they are in strict document order |
| Shapes.DirectChildrenMembers | src/penai/svg.py:419-424 | the direct children are exactly the markers whose parent shape is this one, in strict document order |
| Shapes.IsLeaf | src/penai/svg.py:469-470 | a shape is a leaf exactly when it has no direct children |
| Shapes.ShapeId | src/penai/svg.py:405-409 | the id is the `id` attribute of the containing group, if it has one; a marker at the root raises |
| Shapes.ParentDepth | src/penai/svg.py:324 | a shape has depth 0 exactly when it has no parent, and otherwise one more than its parent |
| Shapes.DirectChildDepth | src/penai/svg.py:479-482 | a direct child is exactly one level deeper than its parent |
| Shapes.MarkerIsNotGroup | src/penai/svg.py:248-253 | a `<penpot:shape>` element is never taken for a group |
| Shapes.AllChildrenDeeper | src/penai/svg.py:472-476 | in a document where each group has a single marker, every shape below a shape is deeper than it |
| Shapes.ScanSucceeds | src/penai/svg.py:498-523 | when every marker constructs, every scan succeeds |
| ViewBoxes.StoredViewBox | src/penai/svg.py:336-341 | there is no stored box exactly when `viewBox` is absent or empty; otherwise the stored box is the attribute, parsed |
| ViewBoxes.StoreThenRead | src/penai/svg.py:336-346 | a stored box reads back as itself; other shapes keep their boxes; only view boxes change in the document |
| ViewBoxes.ConstructSame | src/penai/svg.py:314-331 | storing boxes changes no shape: construction, parent and parent chain are as before |
| ViewBoxes.FromRootElement | src/penai/svg.py:112-143 | corrected: every given attribute is set on the root; an `svg` element is kept; anything else is wrapped in a new `svg` whose nsmap puts the SVG namespace under the element's own |
| ViewBoxes.FromRootElementAsWritten | src/penai/svg.py:134-138 | as written: only an `svg` element succeeds, as in the corrected export; anything else raises AttributeError on `BetterElement.create` |
| ViewBoxes.ExportAttribs | src/penai/svg.py:367-372 | "default" succeeds exactly when a box is stored; the view box is the stored box, the one asked for, or the document root's own; the aspect ratio is always `xMinYMin meet` |
| ViewBoxes.ShapeToSvg | src/penai/svg.py:359-373 | corrected: "default" succeeds exactly when a box is stored; the exported root carries the chosen view box and the aspect ratio `xMinYMin meet`; without a box the document root's view box is kept |
| ViewBoxes.ShapeToSvgAsWritten | src/penai/svg.py:359-373 | as written: the same export for a shape whose containing element is the `svg` root; for any other shape every export fails, and one the corrected export completes raises AttributeError |
| ViewBoxes.ToSvgReportsStoredBox | src/penai/svg.py:359-373 | corrected: the exported SVG's view box is the stored box, or the one asked for |
| ViewBoxes.RenderedBox | src/penai/svg.py:95-110 | corrected: fails when the renderer reports nothing; when it reports a rectangle, the result is `from_dom_rect` of it, succeeding exactly when its width and height are non-negative |
| ViewBoxes.RenderedBoxAsWritten | src/penai/svg.py:389 | as written: a shape directly under the `svg` root renders as corrected; for any other shape the export before rendering raises AttributeError |
| ViewBoxes.SetDefaultViewBox | src/penai/svg.py:375-389 | corrected: an explicit box is stored as given; without a box and a renderer it raises; with a renderer it succeeds exactly when the rendered box builds, storing that box, and otherwise raises the rendering's error |
| ViewBoxes.RenderedRectIsStored | src/penai/svg.py:375-389 | a renderer that reports a rectangle of non-negative extent makes `set_default_view_box` succeed and store exactly that rectangle as the shape's view box |
| ViewBoxes.SetDefaultViewBoxAsWritten | src/penai/svg.py:375-389 | as written: an explicit box, a missing renderer or a shape under the `svg` root behave as corrected; rendering a shape inside a group raises AttributeError |
| ViewBoxes.GetDefaultViewBox | src/penai/svg.py:391-403 | corrected: a stored box is returned with the document unchanged; an unreadable stored box raises; with no stored box it raises without a renderer, and with one answers the rendered box and the document storing it, or the rendering's error |
| ViewBoxes.GetDefaultViewBoxAsWritten | src/penai/svg.py:391-403 | as written: a stored box, a missing renderer or a shape under the `svg` root behave as corrected; computing the box of a shape inside a group raises AttributeError |
| ViewBoxes.GetDefaultViewBoxCaches | src/penai/svg.py:391-403 | corrected: after one successful call the box is stored, only view boxes changed, and a call without a renderer returns the same |
| ViewBoxes.ToSvgDefaultIsStored | src/penai/svg.py:367-371 | corrected: "default" works exactly when `get_default_view_box()` without a renderer works, and means exporting with that box |
| ViewBoxes.ExportInGroupFails | src/penai/svg.py:134-137 | in `<svg><g id="a"><penpot:shape/></g></svg>` the shape exports under the corrected model, while as written `to_svg`, `set_default_view_box` with a renderer and `get_default_view_box` with a renderer all raise AttributeError |
| ViewBoxes.SetThenGet | src/penai/svg.py:375-403 | after setting, get returns without a renderer the box given or the rendered box, and every shape of the document is unchanged |
| Pages.MaxDepth | src/penai/svg.py:537-540 | the maximum bounds every shape depth and is attained, or is 0 without shapes |
| Pages.BuildPage | src/penai/svg.py:531-541 | a page builds exactly when every marker constructs; shapes are the markers in document order; buckets and maximum agree with the shapes |
| Pages.PageInDocumentOrder | src/penai/svg.py:531-541 | a page's shapes are in strict document order and are exactly the document's markers |
| Pages.ShapesAtDepth | src/penai/svg.py:593-594 | a depth without a bucket answers the empty list |
| Pages.ShapesAtDepthExact | src/penai/svg.py:593-594 | every depth answers exactly the page's shapes of that depth, in order |
| Pages.MarkerListed | src/penai/svg.py:531-541 | every marker of the document is among the page's shapes |
| Pages.RootsAndChildren | src/penai/svg.py:593-598 | depth-0 shapes have no parent, and their direct children name them as parent |
| Pages.ChildOfItsParent | src/penai/svg.py:446-476 | a shape is among the descendants its parent reports |
| Pages.MaxDepthShapesAreLeaves | src/penai/svg.py:589-594 | shapes of the maximal depth have no direct children; they have a parent listing them unless that depth is 0; in a canonical document they have no descendants |
| Pages.Matches | src/penai/svg.py:568-570 | a shape matches by name exactly when its `penpot:name` equals the name, and by id exactly when its group's `id` does |
| Pages.Matching | src/penai/svg.py:568-570 | keeps exactly the matching shapes; a failing attribute read propagates |
| Pages.MatchingSorted | src/penai/svg.py:568-570 | the matches keep the page's order |
| Pages.ShapesWith | src/penai/svg.py:568-572 | the non-unique lookup lists exactly the page's matching shapes |
| Pages.UniqueShape | src/penai/svg.py:574-587 | a found shape is on the page, matches, and is the only shape that does |
| Pages.UniqueShapeErrors | src/penai/svg.py:574-581 | KeyError exactly when nothing matches; RuntimeError exactly when two different shapes match |
| Pages.IdSet | src/penai/svg.py:620-622 | the set holds exactly the ids of the given shapes |
| Pages.BoxFor | src/penai/svg.py:634-637 | for an id no rendered element carries, the page script throws and `execute_script` raises; otherwise the box is `from_dom_rect` of the rectangle reported for the shape's id |
| Pages.SelectShapes | src/penai/svg.py:617-625 | no selection means all page shapes; a selection is accepted as given exactly when its ids are all page ids, and otherwise raises ValueError |
| Pages.StoreBoxes | src/penai/svg.py:633-638 | succeeds exactly when every chosen shape's box builds, and then each chosen shape stores its box, every other element keeps its own and only view boxes changed; otherwise the error is that of the first shape whose box fails |
| Pages.BuiltPageSupportsBatch | src/penai/svg.py:531-541 | a page built from a document lists exactly its markers, none at the document root |
| Pages.RetrieveAndSetViewBoxes | src/penai/svg.py:600-638 | raises the subset error exactly when the selection fails; then succeeds exactly when every chosen box builds, each chosen shape storing `from_dom_rect` of its rectangle and every other element keeping its box; otherwise the error is the first failing shape's |
| Models.MakeDimensions | src/penai/models.py:62-69 | construction succeeds exactly for a non-negative width and height, carrying them |
| Models.FromBBox | src/penai/models.py:71-76 | succeeds exactly when left <= right and top <= bottom; width and height are the spans |
| Models.FromViewBoxString | src/penai/models.py:78-80 | as written: the four numbers are read as left, top, right and bottom; a wrong count raises the arity error; text never reads |
| Models.FromViewBoxStringIntended | src/penai/models.py:78-83 | corrected: the third and fourth numbers are the width and height |
| Models.ToViewBoxString | src/penai/models.py:82-83 | the string is a view box at the origin: 0, 0, width, height |
| Models.DimensionsRoundTrip | src/penai/models.py:78-83 | dimensions read back from their own view-box string under both readings |
| Models.ReadingsAgreeAtOrigin | src/penai/models.py:78-83 | the two readings agree on every view box at the origin |
| Models.OffsetViewBoxMisread | src/penai/models.py:78-80 | a box away from the origin loses its offset as written; the intended reading keeps it |
| Models.ToSvg | src/penai/models.py:90-101 | the copy keeps the root's label, children and attributes, appends one `<use href="#id">`, and sets the view box from the dimensions |
| Models.ToSvgViewBox | src/penai/models.py:90-101 | the component SVG's view box reads back as the box at the origin with the component's dimensions |
| Models.ComponentNames | src/penai/models.py:110-111 | the names of the components, one per entry, in dict order |
| Models.GetByName | src/penai/models.py:113-121 | corrected (uncached): the first component in dict order with the name; KeyError exactly when no component has it |
| Models.GetByNameFindsListedNames | src/penai/models.py:110-121 | a name is found exactly when it is among the component names |
| Models.GetByNameAsWritten | src/penai/models.py:113-121 | as written, with `@cache`: every call raises TypeError, including for names the dict holds |
| Models.CachedLookupFails | src/penai/models.py:104-121 | a dict holding "button": the uncached lookup finds it and the cached one raises |
| Models.ComponentDictOf | src/penai/models.py:168-171 | the dict has unique keys |
| Models.ComponentDictLastWins | src/penai/models.py:168-171 | exactly the component ids are keys, and a repeated id keeps the last component |
| Models.GetMainFile | src/penai/models.py:210-211 | KeyError naming the id exactly when no file has it; otherwise a file stored under it |
| Models.MainFileIsStored | src/penai/models.py:206-211 | with unique ids, the main file is the one stored under its id, and after storing a new file under that id it is the new one |
| Transit.UuidHex | src/penai/client.py:107-108 | the hex is 32 lower-case hexadecimal digits |
| Transit.UuidHexRoundTrip | src/penai/client.py:107-108 | reading the hex back gives the UUID's integer, so different UUIDs convert to different strings |
| Transit.ToPy | src/penai/client.py:93-110 | a keyword becomes its name and a UUID its hex; a tagged value becomes `{tag: rep}`; tuples convert element-wise; a frozen dict becomes the dict of its converted items; other values stay |
| Transit.ToPySeq | src/penai/client.py:105-106 | succeeds exactly when every element converts, with one converted element per element |
| Transit.ToPyPairs | src/penai/client.py:101-102 | succeeds exactly when every item converts, with one converted pair per item |
| Transit.ToPyItem | src/penai/client.py:101-102 | an item converts exactly when key and value convert and the converted key is hashable; an unhashable key raises TypeError |
| Transit.FrozenDictLastWins | src/penai/client.py:101-102 | exactly the converted keys are present, each holding the converted value of the last item with that key |
| Transit.CollidingKeysKeepLast | src/penai/client.py:101-104 | a keyword and the string of its name collide, and the later value is kept |
| Transit.TaggedKeyIsUnhashable | src/penai/client.py:99-102 | a tagged frozen-dict key converts to a dict and the conversion raises |
| Transit.ToPyIdempotent | src/penai/client.py:93-110 | a result holds no transit type at the levels converted, and converting it again changes nothing |
| ApiTransit.MapTransitValue | scripts/api.py:139-143 | a string starting with `~:` or `~u` loses those two characters; any other value is returned unchanged |
| ApiTransit.DropTwo | scripts/api.py:136 | the key without its first two characters, empty when shorter |
| ApiTransit.MapTransit | scripts/api.py:145-151 | objects and lists are mapped member by member; other values go through the value mapping |
| ApiTransit.MapTransitList | scripts/api.py:130-131 | one mapped element per element, in order |
| ApiTransit.MapTransitDict | scripts/api.py:133-137 | the mapped object has unique keys |
| ApiTransit.MapTransitDictKeys | scripts/api.py:133-137 | exactly the shortened keys are present, each holding the mapped value of the last member that shortens to it |
| ApiTransit.MapTransitValueDecodes | scripts/api.py:139-143 | a written keyword or UUID maps back to its name or hex; a plain string not starting with `~` is unchanged |
| ApiTransit.KeywordKeysDecode | scripts/api.py:133-137 | an object written with keyword keys maps to the plain names, each with its mapped value |
| ApiTransit.Field | scripts/api.py:70-71 | indexing a non-object raises TypeError; a missing key raises KeyError; otherwise the member's value |
| ApiTransit.FindBy | scripts/api.py:68-78 | returns the first font whose field equals the family; None exactly when every font was inspected without a match; the first font that cannot be inspected raises |
| ApiTransit.FindLocalFont | scripts/api.py:68-72 | the lookup on the font's `id` |
| ApiTransit.FindFont | scripts/api.py:74-78 | the lookup on the font's `family` |
| ApiTransit.FindByOnWellFormedFonts | scripts/api.py:68-78 | on fonts that all carry the field, the lookup never raises and finds a font exactly when one carries the family |
| Prune.Trim | src/penai/utils/svg.py:15-26 | the element and its attributes stay; the children are the unprefixed ones, in order, each trimmed; no prefixed element remains below |
| Prune.TrimKeepsOrder | src/penai/utils/svg.py:20-26 | the trimmed children are the surviving children, in order, each trimmed |
| Prune.TrimRemovesPrefix | src/penai/utils/svg.py:15-26 | no element strictly below the root carries the prefix afterwards |
| Prune.TrimCleanIsIdentity | src/penai/utils/svg.py:15-26 | a tree without prefixed elements is left exactly as it was |
| Prune.TrimIdempotent | src/penai/utils/svg.py:15-26 | trimming twice is trimming once |
| Prune.EmptyNamespaceRemovesNothing | src/penai/utils/svg.py:23 | an empty namespace matches no prefix, so nothing is removed |
| Prune.StripPenpot | src/penai/utils.py:20-39 | the `penpot` pruning: no `penpot` element remains below the root, and the surviving children are kept in order |
| Prune.CheckExtension | src/penai/utils/io.py:45-46 | raises ValueError exactly for a non-empty extension not starting with a dot |
| Prune.DottedExtensionsPass | src/penai/utils/svg.py:59-60 | every dotted extension and the empty one pass; a bare name does not |
| NestedKeys.MapKeys | src/penai/utils/dict.py:4-13 | the result has unique keys |
| NestedKeys.MapEntries | src/penai/utils/dict.py:7-12 | one assignment per entry, in order |
| NestedKeys.MapEntry | src/penai/utils/dict.py:8-12 | the key becomes its image; a nested dict is rebuilt and any other value carried over |
| NestedKeys.MapKeysLastWins | src/penai/utils/dict.py:4-13 | exactly the images of the keys are present, each holding the last colliding entry's value |
| NestedKeys.CollisionKeepsLater | src/penai/utils/dict.py:10-12 | two keys with the same image keep the later value |
| NestedKeys.IdentityKeepsDict | src/penai/utils/dict.py:4-13 | the identity function rebuilds any well-formed nested dict unchanged |
| NestedKeys.InjectiveKeepsDepth | src/penai/utils/dict.py:4-13 | an injective function keeps the entry count and nesting depth |
| FileNames.RemoveSlashesChars | src/penai/utils/io.py:33 | the slash removal keeps exactly the characters other than `/` |
| FileNames.CollapseSpaces | src/penai/utils/io.py:34 | collapsing never lengthens the name and keeps a non-space first character |
| FileNames.CollapseSpacesShape | src/penai/utils/io.py:34 | the result is collapsed, keeps the visible characters in order, and has one space per whitespace run |
| FileNames.CollapseFixed | src/penai/utils/io.py:34 | an already collapsed string is unchanged |
| FileNames.FnCompatible | src/penai/utils/io.py:27-35 | the name has no `/` and is no longer than before |
| FileNames.FnCompatibleShape | src/penai/utils/io.py:27-35 | no `/`; whitespace collapsed to single spaces; the characters that are neither `/` nor whitespace kept in order |
| FileNames.SlashBetweenSpaces | src/penai/utils/io.py:33-34 | slashes go before whitespace is collapsed, so "a / b" becomes "a b" |
| FileNames.FnCompatibleIdempotent | src/penai/utils/io.py:27-35 | applying it twice is applying it once |
| Prompting.Breaks | src/penai/llm/prompting.py:244 | `"\n" * n` is n line breaks, none for n <= 0 |
| Prompting.NewPrompt | src/penai/llm/prompting.py:240-241 | a new builder builds its initial prompt |
| Prompting.WithText | src/penai/llm/prompting.py:243-246 | the prompt grows by the breaks and then the text, at the end, keeping what was there |
| Prompting.WithConditionalText | src/penai/llm/prompting.py:248-251 | the text is appended without breaks when the condition holds, and nothing changes otherwise |
| Prompting.BuildIsConcatenation | src/penai/llm/prompting.py:239-254 | the prompt is the initial text followed by every call's contribution, in call order |
| Prompting.NewMessage | src/penai/llm/prompting.py:189-192 | a new message has no items, or one text item |
| Prompting.WithTextMessage | src/penai/llm/prompting.py:194-199 | one text item is appended and the earlier items are kept |
| Prompting.AddTextsAppends | src/penai/llm/prompting.py:194-199 | adding texts in turn gives one text item per text, in order, after the items already there |
| Prompting.LeadingWord | src/penai/llm/prompting.py:33 | the longest prefix of word characters |
| Prompting.SplitLanguage | src/penai/llm/prompting.py:31-38 | there is a language exactly when the text starts with a word character; the language is that leading word; the code is what follows the whitespace after it; otherwise the whole text is code |
| Prompting.SplitLanguageRoundTrip | src/penai/llm/prompting.py:31-38 | word, whitespace and code put together split back into that word and code |
| Hierarchy.Flatten | src/penai/hierarchy_generation/inference.py:23-28 | the element comes first, and is alone when it has no children |
| Hierarchy.FlattenMembers | src/penai/hierarchy_generation/inference.py:23-28 | the flattening holds the element and the flattenings of its children, nothing else |
| Hierarchy.FirstMissingMeans | src/penai/hierarchy_generation/inference.py:45-52 | nothing is missing exactly when every id is mapped; a missing id is the first unmapped one |
| Hierarchy.Build | src/penai/hierarchy_generation/inference.py:38-54 | a build appends one element per schema element and leaves earlier ones unchanged |
| Hierarchy.BuildFails | src/penai/hierarchy_generation/inference.py:45-52 | a build fails exactly when some id is unmapped, and the KeyError names the first such id in pre-order |
| Hierarchy.FromHierarchySchema | src/penai/hierarchy_generation/inference.py:38-54 | succeeds exactly when every schema id is mapped, with one element per schema element and a root without parent; otherwise KeyError on the first missing id |
| Hierarchy.BuildContent | src/penai/hierarchy_generation/inference.py:45-52 | the new elements hold, in order, the mapped shape and description of the schema's pre-order |
| Hierarchy.BuildShape | src/penai/hierarchy_generation/inference.py:45-52 | children lie after their element and name it as parent; the root names the given parent |
| Hierarchy.BuildFlat | src/penai/hierarchy_generation/inference.py:56-60 | flattening the new element visits exactly the new slots, in order |
| Hierarchy.FlattenCorresponds | src/penai/hierarchy_generation/inference.py:23-60 | flattening the built tree visits every element once, in pre-order, matching the schema flattening element for element |
| Flags.Expand | src/penai/utils/argparse.py:27-31 | a `--name` flag whose default is False gets "True" after it; a missing key raises KeyError; other arguments pass alone |
| Flags.RewriteArgs | src/penai/utils/argparse.py:25-32 | succeeds exactly when every looked-up key exists; the error names the first missing key; the length grows by the number of False flags |
| Flags.RewritePositions | src/penai/utils/argparse.py:26-32 | every argument keeps its relative order, and each False-default flag is directly followed by "True" |
| Flags.OutputCovered | src/penai/utils/argparse.py:26-32 | every output position holds an argument or the "True" inserted after one |
| Flags.ArgsToParse | src/penai/utils/argparse.py:25-32 | with a namespace and arguments both present, the arguments are rewritten; otherwise they pass unchanged |
| Flags.MissingKeyFirst | src/penai/utils/argparse.py:27-29 | of two unknown flags, the first one is reported |

## Left out

- Rendering: the web driver, HTML serialisation and `getBBox()` are an
  oracle parameter. `to_html_string`, `get_web_driver_for_html` and the
  progress bar are not modelled.
- Float formatting and parsing: a view box is stored as numbers. So
  `FromViewBoxString` fails on any text rather than parsing it, and the
  written form is not modelled character by character.
- Geometry.FromViewBoxString: the text path is modelled only as "blank", which
  raises the arity error, or "not a number". Text holding numbers never
  parses, because float parsing is left out.
- Models.FromViewBoxString: text never parses, for the same reason.
- File and network I/O: `from_file`, `to_file`, `parse_*`,
  `inline_images` and `url_to_data_uri`. Also the body of
  `temp_file_for_content`, whose extension guard is modelled, and the image
  methods of `MessageBuilder`, which encode images and fetch them over HTTP.
- `PenpotComponentsSVG.get_component_list` and `PenpotFile` pages are not
  modelled, since they parse files with lxml's path language. A component
  list and file contents are inputs.
- `get_hierarchy_dict`, `get_hierarchy_dict_for_names` and the
  `pprint_hierarchy` methods are printing or dict assembly over the modelled
  shape operations. `apply_func_to_nested_keys` is modelled on its own.
- Caches whose only effect is speed are not modelled:
  `get_literal_type_to_shape_type_mapping`, the `child_shapes` list and the
  `_get_shapes_by_attr` memo. The memo on `query_compatible_nsmap` is
  modelled, because it changes results.
- Xml.XpathNamespacesAsWritten: the pop on a non-empty caller dict also
  mutates the caller's own dict. That side effect on the caller is not
  modelled.
- `SVG.from_root_element`: the explicit `nsmap` argument is never passed by
  the modelled callers. The `isinstance` check cannot fail on the model's
  elements. The deep copy is implicit, because elements are values.
- ViewBoxes.FromRootElement: states the docstring's behaviour, building the
  new `svg` root that `BetterElement.create` was meant to build. That class
  method is not defined, so the code as written raises AttributeError for
  any element other than `svg`; `FromRootElementAsWritten` models that.
- ViewBoxes.ShapeToSvg: the export of a shape inside a group uses the
  corrected `FromRootElement`. As written it raises AttributeError, which
  `ShapeToSvgAsWritten` and `ExportInGroupFails` state.
- ViewBoxes.ToSvgReportsStoredBox: holds of the corrected export only. As
  written, only shapes whose containing element is the `svg` root export.
- ViewBoxes.RenderedBox: renders the corrected export. As written the export
  raises first for a shape inside a group (`RenderedBoxAsWritten`).
- ViewBoxes.SetDefaultViewBox: the renderer path uses the corrected export.
  As written it raises AttributeError for a shape inside a group
  (`SetDefaultViewBoxAsWritten`).
- ViewBoxes.GetDefaultViewBox: computing a missing box uses the corrected
  export. As written it raises AttributeError for a shape inside a group
  (`GetDefaultViewBoxAsWritten`).
- ViewBoxes.GetDefaultViewBoxCaches: the caching is stated for the
  corrected export. As written, the renderer path fails for a shape inside a
  group and nothing is cached.
- ViewBoxes.ToSvgDefaultIsStored: relates the corrected export and the
  corrected lookup. As written both raise for a shape inside a group.
- ViewBoxes.SetThenGet: the renderer path is that of the corrected
  `SetDefaultViewBox`. An explicit box behaves the same as written.
- Pages.RetrieveAndSetViewBoxes: selected shapes are paths into the same
  document as the page. Shape objects from another parse of the same file
  are not modelled, although the subset check compares only ids. The page
  is any index listing exactly the document's markers, and
  `BuiltPageSupportsBatch` shows that every built page is one. The selection
  is a list: a one-shot iterable such as a generator is not modelled. The id
  check at svg.py:620 would use it up, so the loop at svg.py:633 would store
  no box and the call would return normally.
- Python equality across types, such as `1 == True` for dict keys, is not
  modelled: keys compare structurally.
- Comments and processing instructions among lxml children are not
  modelled. Every child is an element.
- `\w` is approximated by ASCII letters, digits and underscore. Python's
  Unicode word characters are not modelled. `\s` is the set of characters
  for which `str.isspace()` holds, as in `Chars.IsSpace`.
- The `CodeSnippet` input is the code tag's text. BeautifulSoup and
  markdown parsing are not modelled, and neither are `get_preceding_heading`,
  the LLM response and conversation classes, or `build` with a message type.
- Argument parsing after the rewrite is done by jsonargparse, which is not
  part of this model. A namespace lookup for a missing key is modelled as a
  KeyError.
- The LLM calls, schema prompts and visualisation of the hierarchy
  inference are not modelled. The label-to-shape mapping is an input.
- Mutation that stops partway because of an exception is not modelled. A
  failing operation returns only the error, not the partly changed tree.

## Findings

| source | as written | input that shows it | evidently intended | confidence | as-written member | corrected member |
|---|---|---|---|---|---|---|
| src/penai/xml.py:85-88 | `xpath` without namespaces pops `""` from the memoised `query_compatible_nsmap` dict itself | an element with a default namespace: `xpath(...)`, then `find(...)` | pop from a copy, so later `find`/`findall` still see the default namespace | medium, not executed | Xml.XpathNamespacesAsWritten, Xml.XpathCorruptsFindNamespaces | Xml.XpathNamespaces, Xml.XpathKeepsFindNamespaces |
| src/penai/models.py:79-80 | `Dimensions.from_view_box_string` reads "x y width height" as left, top, right, bottom | "10 20 100 50" gives 90 x 30, and "10 20 5 5" raises ValueError | width and height are the third and fourth numbers | medium, not executed | Models.FromViewBoxString, Models.OffsetViewBoxMisread | Models.FromViewBoxStringIntended, Models.DimensionsRoundTrip |
| src/penai/models.py:113-114 | `@cache` on a method of a `dict` subclass hashes `self`, which is unhashable | any `PenpotComponentDict(...).get_by_name("button")` | an uncached linear search, or a cache keyed on the name only | high, not executed | Models.GetByNameAsWritten, Models.CachedLookupFails | Models.GetByName, Models.GetByNameFindsListedNames |
| src/penai/svg.py:134-136 | `from_root_element` calls `BetterElement.create`, a class method `BetterElement` does not define | `<svg><g id="a"><penpot:shape/></g></svg>` and `to_svg(view_box=None)` on the shape | create a new `svg` element in the given nsmap and append the group to it | high, not executed | ViewBoxes.ShapeToSvgAsWritten, ViewBoxes.ExportInGroupFails | ViewBoxes.ShapeToSvg, ViewBoxes.ToSvgReportsStoredBox |