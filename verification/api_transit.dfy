/** The JSON helpers of scripts/api.py: stripping transit prefixes from decoded
    JSON, and looking fonts up in a decoded font list. */
module ApiTransit {
  import opened Wrappers
  import opened Values
  import opened OrderedMaps
  import Chars

  /** A value `json.load` produces; an object keeps its members in order. */
  datatype Json =
    | JStr(s: string)
    | JNum(n: real)
    | JBool(b: bool)
    | JNull
    | JList(items: seq<Json>)
    | JObject(members: seq<(string, Json)>)

  const KeywordPrefix := "~:"
  const UuidPrefix := "~u"

  /** The string starts with one of the two transit prefixes this script strips. */
  predicate HasTransitPrefix(s: string) {
    Chars.StartsWith(s, KeywordPrefix) || Chars.StartsWith(s, UuidPrefix)
  }

  /** `map_transit_value`: a string with a keyword or UUID prefix loses it;
      every other value is returned as it is. */
  function MapTransitValue(v: Json): (r: Json)
    ensures v.JStr? && HasTransitPrefix(v.s) ==> r == JStr(v.s[2..])
    ensures !(v.JStr? && HasTransitPrefix(v.s)) ==> r == v
  {
    if v.JStr? && |v.s| >= 2 && (v.s[..2] == KeywordPrefix || v.s[..2] == UuidPrefix) then JStr(v.s[2..]) else v
  }

  /** `k[2:]`: the key without its first two characters, empty when it is shorter. */
  function DropTwo(k: string): (r: string)
    ensures |k| >= 2 ==> k == k[..2] + r
    ensures |k| < 2 ==> r == ""
  {
    if |k| >= 2 then k[2..] else ""
  }

  /** `map_transit`: objects and lists are mapped member by member, everything
      else through `map_transit_value`. */
  function MapTransit(v: Json): (r: Json)
    ensures v.JObject? ==> r == JObject(FromPairs(MapTransitPairs(v.members)))
    ensures v.JList? ==> r == JList(MapTransitList(v.items))
    ensures !v.JObject? && !v.JList? ==> r == MapTransitValue(v)
    decreases v, 1
  {
    match v
    case JObject(members) => JObject(MapTransitDict(members))
    case JList(items) => JList(MapTransitList(items))
    case _ => MapTransitValue(v)
  }

  /** `map_transit_list`: one mapped element per element, in order. */
  function MapTransitList(items: seq<Json>): (r: seq<Json>)
    ensures |r| == |items|
    ensures forall i :: 0 <= i < |items| ==> r[i] == MapTransit(items[i])
    decreases items, 0
  {
    if |items| == 0 then []
    else
      assert forall i :: 0 < i < |items| ==> items[i] == items[1..][i - 1];
      [MapTransit(items[0])] + MapTransitList(items[1..])
  }

  /** The assignments `map_transit_dict` makes, in order. */
  function MapTransitPairs(members: seq<(string, Json)>): (r: seq<(string, Json)>)
    ensures |r| == |members|
    ensures forall i :: 0 <= i < |members| ==> r[i] == MapTransitMember(members[i])
    decreases members, 0
  {
    if |members| == 0 then []
    else
      assert forall i :: 0 < i < |members| ==> members[i] == members[1..][i - 1];
      [MapTransitMember(members[0])] + MapTransitPairs(members[1..])
  }

  /** One assignment: the key loses two characters whatever they are, the
      value is mapped. */
  function MapTransitMember(m: (string, Json)): (r: (string, Json))
    ensures r.0 == DropTwo(m.0)
    decreases m, 2
  {
    (DropTwo(m.0), MapTransit(m.1))
  }

  /** `map_transit_dict`: the successive assignments into a fresh dict. */
  function MapTransitDict(members: seq<(string, Json)>): (r: seq<(string, Json)>)
    ensures UniqueKeys(r)
    decreases members, 1
  {
    FromPairs(MapTransitPairs(members))
  }

  /** Member `j` is the last whose shortened key is `k`. */
  predicate LastShortenedKey(members: seq<(string, Json)>, j: int, k: string) {
    0 <= j < |members| && DropTwo(members[j].0) == k &&
    forall l :: j < l < |members| ==> DropTwo(members[l].0) != k
  }

  /** A mapped object has a key exactly for each shortened key of the original,
      holding the mapped value of the last member that shortens to it. */
  lemma MapTransitDictKeys(members: seq<(string, Json)>, k: string)
    ensures Get(MapTransitDict(members), k).Some? <==> exists i :: 0 <= i < |members| && DropTwo(members[i].0) == k
    ensures Get(MapTransitDict(members), k).Some? ==>
      exists j :: LastShortenedKey(members, j, k) && Get(MapTransitDict(members), k).value == MapTransit(members[j].1)
  {
    var ps := MapTransitPairs(members);
    FromPairsLastWins(ps, k);
    LastValueSome(ps, k);
    if exists i :: 0 <= i < |members| && DropTwo(members[i].0) == k {
      var i :| 0 <= i < |members| && DropTwo(members[i].0) == k;
      assert ps[i].0 == k;
    }
    if LastValue(ps, k).Some? {
      LastValueIsLast(ps, k);
      var j :| IsLastPair(ps, j, k, LastValue(ps, k).value);
      assert LastShortenedKey(members, j, k);
    }
  }

  /** A token of the transit string encoding. */
  datatype Token = KeywordToken(name: string) | UuidToken(hex: string) | PlainString(s: string)

  /** How transit writes a token into a JSON string: keywords and UUIDs behind
      their prefixes, a plain string as itself. */
  function Encode(t: Token): string {
    match t
    case KeywordToken(name) => KeywordPrefix + name
    case UuidToken(hex) => UuidPrefix + hex
    case PlainString(s) => s
  }

  function Payload(t: Token): string {
    match t
    case KeywordToken(name) => name
    case UuidToken(hex) => hex
    case PlainString(s) => s
  }

  /** Mapping a written keyword or UUID recovers its name or hex string, and a
      plain string that does not start with `~` comes back unchanged. */
  lemma MapTransitValueDecodes(t: Token)
    requires t.PlainString? ==> |t.s| == 0 || t.s[0] != '~'
    ensures MapTransitValue(JStr(Encode(t))) == JStr(Payload(t))
  {
    var e := Encode(t);
    if !t.PlainString? {
      assert e[..2] == (if t.KeywordToken? then KeywordPrefix else UuidPrefix);
      assert e[2..] == Payload(t);
    }
  }

  /** An object written with keyword keys maps to the object with the plain
      names, each holding its mapped value. */
  lemma KeywordKeysDecode(members: seq<(string, Json)>, name: string, v: Json)
    requires (KeywordPrefix + name, v) in members
    requires forall i, j :: 0 <= i < j < |members| ==> DropTwo(members[i].0) != DropTwo(members[j].0)
    ensures Get(MapTransitDict(members), name) == Some(MapTransit(v))
  {
    var i :| 0 <= i < |members| && members[i] == (KeywordPrefix + name, v);
    assert DropTwo(members[i].0) == name;
    MapTransitDictKeys(members, name);
    var j :| LastShortenedKey(members, j, name) && Get(MapTransitDict(members), name).value == MapTransit(members[j].1);
    assert j == i;
  }

  // ---------------------------------------------------------------------------
  // Font lookup

  /** `font[field]`: a KeyError when the object lacks it, a TypeError on
      anything that is not an object. */
  function Field(font: Json, field: string): (r: Result<Json, Error>)
    ensures !font.JObject? ==> r == Failure(NotADictionary)
    ensures font.JObject? ==> (r.Success? <==> exists i :: 0 <= i < |font.members| && font.members[i].0 == field)
    ensures r.Failure? && font.JObject? ==> r == Failure(MissingKey(field))
  {
    if !font.JObject? then Failure(NotADictionary)
    else match Get(font.members, field)
      case None => Failure(MissingKey(field))
      case Some(v) => Success(v)
  }

  /** The font can be inspected and does not match. */
  predicate Passes(font: Json, field: string, family: string) {
    Field(font, field).Success? && Field(font, field).value != JStr(family)
  }

  /** `fonts[i]` is the first font whose field equals the family. */
  predicate FirstMatch(fonts: seq<Json>, field: string, family: string, i: int) {
    0 <= i < |fonts| && Field(fonts[i], field) == Success(JStr(family)) &&
    forall j :: 0 <= j < i ==> Passes(fonts[j], field, family)
  }

  /** `fonts[i]` is the first font that cannot be inspected, and no font before it matched. */
  predicate FirstBroken(fonts: seq<Json>, field: string, family: string, i: int) {
    0 <= i < |fonts| && Field(fonts[i], field).Failure? &&
    forall j :: 0 <= j < i ==> Passes(fonts[j], field, family)
  }

  /** The loop shared by `find_local_font` and `find_font`: the first font
      whose field equals the family, None when every font was inspected and
      none matched; a font that cannot be inspected raises before the ones
      after it are seen. */
  function FindBy(fonts: seq<Json>, field: string, family: string): (r: Result<Option<Json>, Error>)
    ensures r == Success(None) <==> forall j :: 0 <= j < |fonts| ==> Passes(fonts[j], field, family)
    ensures r.Success? && r.value.Some? ==> exists i :: FirstMatch(fonts, field, family, i) && r.value.value == fonts[i]
    ensures r.Failure? ==> exists i :: FirstBroken(fonts, field, family, i) && Field(fonts[i], field) == Failure(r.error)
  {
    if |fonts| == 0 then Success(None)
    else
      var v :- Field(fonts[0], field);
      if v == JStr(family) then
        assert FirstMatch(fonts, field, family, 0);
        Success(Some(fonts[0]))
      else
        var r := FindBy(fonts[1..], field, family);
        assert forall j :: 0 < j < |fonts| ==> fonts[j] == fonts[1..][j - 1];
        if r.Success? && r.value.Some? then
          var i :| FirstMatch(fonts[1..], field, family, i) && r.value.value == fonts[1..][i];
          assert FirstMatch(fonts, field, family, i + 1);
          r
        else if r.Failure? then
          var i :| FirstBroken(fonts[1..], field, family, i) && Field(fonts[1..][i], field) == Failure(r.error);
          assert FirstBroken(fonts, field, family, i + 1);
          r
        else
          r
  }

  /** `find_local_font`: matched on the font's `id`. */
  function FindLocalFont(fonts: seq<Json>, family: string): (r: Result<Option<Json>, Error>)
    ensures r.Success? && r.value.Some? ==> exists i :: FirstMatch(fonts, "id", family, i) && r.value.value == fonts[i]
    ensures r == Success(None) <==> forall j :: 0 <= j < |fonts| ==> Passes(fonts[j], "id", family)
  {
    FindBy(fonts, "id", family)
  }

  /** `find_font`: matched on the font's `family`. */
  function FindFont(fonts: seq<Json>, family: string): (r: Result<Option<Json>, Error>)
    ensures r.Success? && r.value.Some? ==> exists i :: FirstMatch(fonts, "family", family, i) && r.value.value == fonts[i]
    ensures r == Success(None) <==> forall j :: 0 <= j < |fonts| ==> Passes(fonts[j], "family", family)
  {
    FindBy(fonts, "family", family)
  }

  /** On a list of well-formed fonts the lookup fails never, and finds a font
      exactly when some font carries the family. */
  lemma FindByOnWellFormedFonts(fonts: seq<Json>, field: string, family: string)
    requires forall j :: 0 <= j < |fonts| ==> Field(fonts[j], field).Success?
    ensures FindBy(fonts, field, family).Success?
    ensures FindBy(fonts, field, family).value.Some? <==>
      exists i :: 0 <= i < |fonts| && Field(fonts[i], field) == Success(JStr(family))
  {
    var r := FindBy(fonts, field, family);
    if exists i :: 0 <= i < |fonts| && Field(fonts[i], field) == Success(JStr(family)) {
      var i :| 0 <= i < |fonts| && Field(fonts[i], field) == Success(JStr(family));
      assert !Passes(fonts[i], field, family);
    }
  }
}
