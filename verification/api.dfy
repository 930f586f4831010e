/** The response models of the last.fm client (src/navidrome_fm/api.py):
    the generic `Model.from_response` validator, driven here by an explicit
    field schema instead of dataclass reflection; the `parse_field` of each
    model class on the `user.getrecenttracks` path; the track identity hash;
    and the now-playing flag. */
module Api {
  import opened Text
  import opened Seqs

  /** A decoded JSON value. */
  datatype Json =
    | JNull
    | JBool(b: bool)
    | JInt(n: int)
    | JStr(s: string)
    | JList(items: seq<Json>)
    | JDict(entries: map<string, Json>)

  /** The value a call returned, or an exception escaping it. */
  datatype Attempt<+T> = Returned(value: T) | Raised

  /** A dataclass field of a model: its name, and whether it lacks both a
      default and a default factory. */
  datatype Field = Field(name: string, required: bool)

  /** The two fields of a `LastFMAPIError`. */
  datatype ApiError = ApiError(error: Json, message: Json)

  /** What `from_response` returns: a model of class `cls` with its `_attr`,
      its `_text` (`JNull` for None) and its parsed fields, or an error. */
  datatype Parsed<+P> =
    | Built(cls: string, attr: Json, text: Json, fields: map<string, P>)
    | Failed(err: ApiError)

  const ErrorClass := "LastFMAPIError"
  const ErrorSchema := [Field("error", true), Field("message", true)]

  function InvalidResponse(cls: string): ApiError
  {
    ApiError(JInt(-1), JStr("Invalid API response, cannot cast to " + cls))
  }

  const UnparsableFields := ApiError(JInt(-1), JStr("Failed to parse one or more fields of response"))

  function Names(schema: seq<Field>): set<string>
  {
    set f | f in schema :: f.name
  }

  /** The response after `@attr` and `#text` have been popped from it. */
  function Unwrapped(res: map<string, Json>): map<string, Json>
  {
    res - {"@attr", "#text"}
  }

  ghost predicate HasRequired(schema: seq<Field>, res: map<string, Json>)
  {
    forall i :: 0 <= i < |schema| && schema[i].required ==> schema[i].name in res
  }

  /** The dict comprehension over the model's fields that are present: each
      present field is parsed, and an exception from any of them escapes. */
  function ParseFields<P>(schema: seq<Field>, parse: (string, Json) -> Attempt<Option<P>>,
                          res: map<string, Json>): (r: Attempt<map<string, Option<P>>>)
    ensures r.Raised? <==>
      exists i :: 0 <= i < |schema| && schema[i].name in res && parse(schema[i].name, res[schema[i].name]).Raised?
    ensures r.Returned? ==> r.value.Keys == Names(schema) * res.Keys
    ensures r.Returned? ==> forall k :: k in r.value ==> k in res && parse(k, res[k]) == Returned(r.value[k])
  {
    if |schema| == 0 then Returned(map[])
    else
      var k := schema[0].name;
      var rest := ParseFields(schema[1..], parse, res);
      assert Names(schema) == {k} + Names(schema[1..]) by {
        assert forall f :: f in schema <==> f == schema[0] || f in schema[1..];
      }
      assert forall i :: 0 < i < |schema| ==> schema[i] == schema[1..][i - 1];
      if k !in res then rest
      else match parse(k, res[k])
        case Raised => Raised
        case Returned(v) =>
          match rest
          case Raised => Raised
          case Returned(m) => Returned(m[k := v])
  }

  /** `Model.from_response` for the model class `cls` with fields `schema`
      and field parser `parse`. */
  function FromResponse<P>(cls: string, schema: seq<Field>, parse: (string, Json) -> Attempt<Option<P>>,
                           res: map<string, Json>): (r: Attempt<Parsed<P>>)
    // any other class turns an error response into a LastFMAPIError
    ensures cls != ErrorClass && "error" in res && "message" in res ==>
      r == Returned(Failed(ErrorFromResponse(res)))
    // a missing required field is an invalid response
    ensures !(cls != ErrorClass && "error" in res && "message" in res) && !HasRequired(schema, Unwrapped(res)) ==>
      r == Returned(Failed(InvalidResponse(cls)))
    // an exception from a field parser escapes
    ensures r.Raised? <==>
      && !(cls != ErrorClass && "error" in res && "message" in res)
      && HasRequired(schema, Unwrapped(res))
      && exists k :: k in Names(schema) && k in Unwrapped(res) && parse(k, res[k]).Raised?
    // once the required fields are there, the only failure is a field parsed to None
    ensures && !(cls != ErrorClass && "error" in res && "message" in res)
            && HasRequired(schema, Unwrapped(res)) && r.Returned? && r.value.Failed? ==>
      && r.value.err == UnparsableFields
      && exists k :: k in Names(schema) && k in Unwrapped(res) && parse(k, res[k]) == Returned(None)
    // a model is built exactly when every present field parses to a value
    ensures r.Returned? && r.value.Built? <==>
      && !(cls != ErrorClass && "error" in res && "message" in res)
      && HasRequired(schema, Unwrapped(res))
      && forall k :: k in Names(schema) && k in Unwrapped(res) ==> parse(k, res[k]).Returned? && parse(k, res[k]).value.Some?
    // what a built model holds
    ensures r.Returned? && r.value.Built? ==>
      && r.value.cls == cls
      && r.value.attr == (if "@attr" in res then res["@attr"] else JDict(map[]))
      && r.value.text == (if "#text" in res then res["#text"] else JNull)
      && r.value.fields.Keys == Names(schema) * Unwrapped(res).Keys
      && forall k :: k in r.value.fields ==> parse(k, res[k]) == Returned(Some(r.value.fields[k]))
    decreases if cls == ErrorClass then 0 else 2
  {
    if cls != ErrorClass && "error" in res && "message" in res then
      Returned(Failed(ErrorFromResponse(res)))
    else
      var attr := if "@attr" in res then res["@attr"] else JDict(map[]);
      var text := if "#text" in res then res["#text"] else JNull;
      var rest := Unwrapped(res);
      if !HasRequiredFields(schema, rest) then
        Returned(Failed(InvalidResponse(cls)))
      else
        match ParseFields(schema, parse, rest)
        case Raised =>
          ExistsRaising(schema, parse, res);
          Raised
        case Returned(m) =>
          if exists k :: k in m && m[k].None? then Returned(Failed(UnparsableFields))
          else Returned(Built(cls, attr, text, map k | k in m :: m[k].value))
  }

  predicate HasRequiredFields(schema: seq<Field>, res: map<string, Json>)
    ensures HasRequiredFields(schema, res) <==> HasRequired(schema, res)
  {
    forall i :: 0 <= i < |schema| && schema[i].required ==> schema[i].name in res
  }

  lemma ExistsRaising<P>(schema: seq<Field>, parse: (string, Json) -> Attempt<Option<P>>, res: map<string, Json>)
    ensures (exists i :: 0 <= i < |schema| && schema[i].name in Unwrapped(res)
               && parse(schema[i].name, Unwrapped(res)[schema[i].name]).Raised?)
            <==> exists k :: k in Names(schema) && k in Unwrapped(res) && parse(k, res[k]).Raised?
  {
    if exists k :: k in Names(schema) && k in Unwrapped(res) && parse(k, res[k]).Raised? {
      var k :| k in Names(schema) && k in Unwrapped(res) && parse(k, res[k]).Raised?;
      var f :| f in schema && f.name == k;
      var i :| 0 <= i < |schema| && schema[i] == f;
    }
  }

  /** Field parser of `LastFMAPIError`: the value as it is (None for null). */
  function KeepJson(key: string, value: Json): Attempt<Option<Json>>
  {
    Returned(if value.JNull? then None else Some(value))
  }

  /** `LastFMAPIError.from_response(res)`, as an error value. */
  function ErrorFromResponse(res: map<string, Json>): (e: ApiError)
    ensures "error" in res && "message" in res ==>
      e == if res["error"].JNull? || res["message"].JNull? then UnparsableFields
           else ApiError(res["error"], res["message"])
    ensures !("error" in res && "message" in res) ==> e == InvalidResponse(ErrorClass)
    decreases 1
  {
    var r := FromResponse(ErrorClass, ErrorSchema, KeepJson, res);
    assert Names(ErrorSchema) == {"error", "message"};
    assert "error" in res && "message" in res <==> HasRequired(ErrorSchema, Unwrapped(res));
    match r
    case Returned(Built(_, _, _, fields)) => ApiError(fields["error"], fields["message"])
    case Returned(Failed(err)) => err
    case Raised => assert false; InvalidResponse(ErrorClass)
  }

  // ---------------------------------------------------------------------------
  // from_response on a value that is not an object

  /** Python's `key in value`: a key of an object, a substring of a string,
      an element of a list; any other value raises `TypeError`. */
  function In(key: string, value: Json): (r: Attempt<bool>)
    ensures r.Raised? <==> !(value.JDict? || value.JStr? || value.JList?)
    ensures value.JStr? ==> (r == Returned(true) <==> Contains(value.s, key))
  {
    match value
    case JDict(m) => Returned(key in m)
    case JStr(s) => Returned(LastOccurrence(s, key).Some?)
    case JList(items) => Returned(JStr(key) in items)
    case _ => Raised
  }

  /** Every required field's name is `in` the value. */
  predicate RequiredIn(schema: seq<Field>, value: Json)
  {
    forall i :: 0 <= i < |schema| && schema[i].required ==> In(schema[i].name, value) == Returned(true)
  }

  /** Some field's name is `in` the value. */
  predicate SomeFieldIn(schema: seq<Field>, value: Json)
  {
    exists i :: 0 <= i < |schema| && In(schema[i].name, value) == Returned(true)
  }

  /** The error check of `from_response` finds both keys in the value. */
  predicate LooksLikeError(cls: string, value: Json)
  {
    cls != ErrorClass && In("error", value) == Returned(true) && In("message", value) == Returned(true)
  }

  /** `from_response` on a string, a list, a number, a boolean or null. The
      `in` tests work on strings and lists only, and once `@attr`, `#text` or
      a field's name is found in such a value, the `pop` or the indexing
      `res[k]` that follows raises. What is left is the invalid-response
      error when a required field is missing, and a model with every field
      at its default when no field is present. */
  function FromNonObject<P>(cls: string, schema: seq<Field>, value: Json): (r: Attempt<Parsed<P>>)
    requires !value.JDict?
    // a number, a boolean or null raises at the first `in`
    ensures !(value.JStr? || value.JList?) ==> r.Raised?
    // the invalid-response error, exactly when nothing special is in the value and a required field is not
    ensures r == Returned(Failed(InvalidResponse(cls))) <==>
      && (value.JStr? || value.JList?)
      && !LooksLikeError(cls, value)
      && In("@attr", value) == Returned(false) && In("#text", value) == Returned(false)
      && !RequiredIn(schema, value)
    // a value that holds a field's name never builds a model
    ensures SomeFieldIn(schema, value) ==> r.Raised? || r == Returned(Failed(InvalidResponse(cls)))
    ensures r.Returned? && r.value.Built? ==> r.value == Built(cls, JDict(map[]), JNull, map[])
  {
    if cls != ErrorClass && In("error", value).Raised? then Raised
    // `LastFMAPIError.from_response` on the same value raises: see ErrorOfNonObjectRaises
    else if LooksLikeError(cls, value) then Raised
    else if In("@attr", value) != Returned(false) then Raised
    else if In("#text", value) != Returned(false) then Raised
    else if !RequiredIn(schema, value) then Returned(Failed(InvalidResponse(cls)))
    else if SomeFieldIn(schema, value) then Raised
    else Returned(Built(cls, JDict(map[]), JNull, map[]))
  }

  /** A string or list holding both `error` and `message` makes
      `LastFMAPIError.from_response` raise: either a `pop` or `res["error"]`
      fails on it. */
  lemma ErrorOfNonObjectRaises(value: Json)
    requires value.JStr? || value.JList?
    requires In("error", value) == Returned(true) && In("message", value) == Returned(true)
    ensures FromNonObject<Json>(ErrorClass, ErrorSchema, value).Raised?
  {
    assert RequiredIn(ErrorSchema, value);
    assert ErrorSchema[0].name == "error";
  }

  /** `Model.from_response(value)` for a JSON value of any type. */
  function FromJson<P>(cls: string, schema: seq<Field>, parse: (string, Json) -> Attempt<Option<P>>,
                       value: Json): Attempt<Parsed<P>>
  {
    if value.JDict? then FromResponse(cls, schema, parse, value.entries)
    else FromNonObject(cls, schema, value)
  }

  /** Keys as JSON strings. */
  function KeyStrings(keys: seq<string>): (r: seq<Json>)
    ensures |r| == |keys|
    ensures forall x :: x in r <==> x.JStr? && x.s in keys
  {
    if |keys| == 0 then [] else [JStr(keys[0])] + KeyStrings(keys[1..])
  }

  /** The elements `for v in value` visits: a list's items, a string's
      characters as one-character strings, an object's keys; anything else
      raises `TypeError`. An object's keys are visited in ascending order
      here. */
  function Iterate(value: Json): (r: Attempt<seq<Json>>)
    ensures r.Raised? <==> !(value.JList? || value.JStr? || value.JDict?)
    ensures value.JList? ==> r == Returned(value.items)
    ensures value.JStr? ==>
      && r.Returned? && |r.value| == |value.s|
      && forall i :: 0 <= i < |value.s| ==> r.value[i] == JStr([value.s[i]])
    ensures value.JDict? ==>
      && r.Returned? && |r.value| == |value.entries|
      && forall x :: x in r.value <==> x.JStr? && x.s in value.entries
  {
    match value
    case JList(items) => Returned(items)
    case JStr(s) => Returned(seq(|s|, i requires 0 <= i < |s| => JStr([s[i]])))
    case JDict(m) =>
      Returned(KeyStrings(SortedKeys(m.Keys)))
    case _ => Raised
  }

  /** A list comprehension `[f(v) for v in items]`: the first exception
      escapes, otherwise one result per element, in order. */
  function ParseEach(f: Json -> Attempt<Parsed<Value>>, items: seq<Json>): (r: Attempt<seq<Parsed<Value>>>)
    ensures r.Returned? <==> forall i :: 0 <= i < |items| ==> f(items[i]).Returned?
    ensures r.Returned? ==> |r.value| == |items|
    ensures r.Returned? ==> forall i :: 0 <= i < |items| ==> r.value[i] == f(items[i]).value
  {
    if |items| == 0 then Returned([])
    else
      assert forall i :: 0 < i < |items| ==> items[i] == items[1..][i - 1];
      match f(items[0])
      case Raised => Raised
      case Returned(p) =>
        match ParseEach(f, items[1..])
        case Raised => Raised
        case Returned(ps) => Returned([p] + ps)
  }

  // ---------------------------------------------------------------------------
  // The model classes on the user.getrecenttracks path

  /** A parsed field: the JSON value as it is, the result of `int()`, a
      nested model, or a list of nested models. */
  datatype Value =
    | Raw(json: Json)
    | Int(n: int)
    | Nested(model: Parsed<Value>)
    | NestedList(models: seq<Parsed<Value>>)

  const ScrobbleClass := "ScrobbleModel"
  const TrackClass := "TrackModel"
  const TrackSchema := [
    Field("mbid", true), Field("name", true), Field("url", true), Field("streamable", true),
    Field("artist", true), Field("album", true), Field("image", true)
  ]
  const ScrobbleSchema := TrackSchema + [Field("date", true)]
  const ArtistSchema := [Field("mbid", true)]
  const AlbumSchema := [Field("mbid", true)]
  const ImageSchema := [Field("size", true)]
  const DateSchema := [Field("uts", true)]
  const ContentClass := "_RecentTracksContentModel"
  const ContentSchema := [Field("track", true)]

  /** The identity `parse_field` of ArtistModel, AlbumModel and ImageModel. */
  function KeepRaw(key: string, value: Json): Attempt<Option<Value>>
  {
    Returned(if value.JNull? then None else Some(Raw(value)))
  }

  /** Python's `int(value)` on a decoded JSON value. */
  function PyInt(value: Json): Attempt<int>
  {
    match value
    case JInt(n) => Returned(n)
    case JBool(b) => Returned(if b then 1 else 0)
    case JStr(s) => (match ParseInt(s) case Some(n) => Returned(n) case None => Raised)
    case _ => Raised
  }

  /** `DateModel.parse_field`: asserts the key is `uts`, then `int()`. */
  function DateField(key: string, value: Json): Attempt<Option<Value>>
  {
    if key != "uts" then Raised
    else match PyInt(value)
      case Raised => Raised
      case Returned(n) => Returned(Some(Int(n)))
  }

  /** `X.from_response(value)` used as a field value. */
  function NestedModel(cls: string, schema: seq<Field>, parse: (string, Json) -> Attempt<Option<Value>>,
                       value: Json): Attempt<Option<Value>>
  {
    match FromJson(cls, schema, parse, value)
    case Raised => Raised
    case Returned(p) => Returned(Some(Nested(p)))
  }

  /** `ImageModel.from_response(v)`. */
  function Image(v: Json): Attempt<Parsed<Value>>
  {
    FromJson("ImageModel", ImageSchema, KeepRaw, v)
  }

  /** `TrackModel.parse_field`. */
  function TrackField(key: string, value: Json): Attempt<Option<Value>>
  {
    if key == "artist" then NestedModel("ArtistModel", ArtistSchema, KeepRaw, value)
    else if key == "album" then NestedModel("AlbumModel", AlbumSchema, KeepRaw, value)
    else if key == "image" then
      match Iterate(value)
      case Raised => Raised
      case Returned(vs) =>
        match ParseEach(Image, vs)
        case Raised => Raised
        case Returned(ps) => Returned(Some(NestedList(ps)))
    else KeepRaw(key, value)
  }

  /** `ScrobbleModel.parse_field`. */
  function ScrobbleField(key: string, value: Json): Attempt<Option<Value>>
  {
    if key == "date" then NestedModel("DateModel", DateSchema, DateField, value)
    else TrackField(key, value)
  }

  /** An object after `from_response` popped its `@attr` and `#text`. */
  function Popped(value: Json): Json
  {
    if value.JDict? then JDict(Unwrapped(value.entries)) else value
  }

  /** A field of an element after the scrobble attempt parsed it: the nested
      `artist`, `album` and `date` objects, and the objects of the `image`
      list, have lost their `@attr` and `#text`. */
  function Touched(key: string, value: Json): Json
  {
    if key == "image" && value.JList? then JList(Map(Popped, value.items))
    else if key in {"artist", "album", "date"} then Popped(value)
    else value
  }

  /** What the scrobble attempt leaves of an element that is an object. The
      attempt parses the fields in the order of ScrobbleSchema and stops at
      the first exception; every nested object is taken as parsed, because
      the track fallback can only succeed when that exception came from
      `date`, the last field (FallbackOnlyAfterDate). */
  function Consumed(entries: map<string, Json>): (r: map<string, Json>)
    ensures r.Keys == Unwrapped(entries).Keys && Unwrapped(r) == r
    ensures forall k :: k in r ==> r[k] == Touched(k, entries[k])
  {
    map k | k in Unwrapped(entries) :: Touched(k, entries[k])
  }

  /** One element of a page's track list: a scrobble if that parse does not
      raise, otherwise a track parsed from what the first attempt left of
      the element. */
  function ParseEntry(v: Json): (r: Attempt<Parsed<Value>>)
    ensures FromJson(ScrobbleClass, ScrobbleSchema, ScrobbleField, v).Returned? ==>
      r == FromJson(ScrobbleClass, ScrobbleSchema, ScrobbleField, v)
    ensures r.Returned? && r.value.Built? ==> r.value.cls in {ScrobbleClass, TrackClass}
    ensures !(v.JDict? || v.JStr? || v.JList?) ==> r.Raised?
  {
    match FromJson(ScrobbleClass, ScrobbleSchema, ScrobbleField, v)
    case Returned(p) => Returned(p)
    case Raised =>
      var left := if v.JDict? then JDict(Consumed(v.entries)) else v;
      FromJson(TrackClass, TrackSchema, TrackField, left)
  }

  /** `_RecentTracksContentModel.parse_field`: the parsed track list keeps
      one entry per element the loop visits, each the scrobble parse or,
      failing that, the track parse. */
  function ContentField(key: string, value: Json): (r: Attempt<Option<Value>>)
    ensures key == "track" && r.Returned? ==>
      && Iterate(value).Returned?
      && r.value.Some? && r.value.value.NestedList?
      && |r.value.value.models| == |Iterate(value).value|
      && forall i :: 0 <= i < |Iterate(value).value| ==>
           Returned(r.value.value.models[i]) == ParseEntry(Iterate(value).value[i])
    ensures key == "track" ==>
      (r.Raised? <==> !(value.JList? || value.JStr? || value.JDict?)
                      || exists i :: 0 <= i < |Iterate(value).value| && ParseEntry(Iterate(value).value[i]).Raised?)
  {
    if key != "track" then Returned(None)
    else match Iterate(value)
      case Raised => Raised
      case Returned(vs) =>
        match ParseEach(ParseEntry, vs)
        case Raised => Raised
        case Returned(ps) => Returned(Some(NestedList(ps)))
  }

  /** `res.track` of a page response whose `recenttracks` is `content`:
      `RecentTracksResponseModel.parse_field` builds the content model from
      it, and the `track` property reads that model's list. An exception of
      the content parse escapes the page request, and on an error value,
      which has no `track`, reading it raises `AttributeError`. */
  function PageTracks(content: Json): (r: Attempt<seq<Parsed<Value>>>)
    // the list is there exactly when the content model is built
    ensures r.Returned? <==>
      content.JDict? && FromResponse(ContentClass, ContentSchema, ContentField, content.entries).Returned?
      && FromResponse(ContentClass, ContentSchema, ContentField, content.entries).value.Built?
    // and it is the parsed `track` field
    ensures r.Returned? ==>
      "track" in content.entries && ContentField("track", content.entries["track"]) == Returned(Some(NestedList(r.value)))
    // an error value of the content parse is not raised as itself
    ensures (FromJson(ContentClass, ContentSchema, ContentField, content).Returned?
             && FromJson(ContentClass, ContentSchema, ContentField, content).value.Failed?) ==> r.Raised?
  {
    match FromJson(ContentClass, ContentSchema, ContentField, content)
    case Raised => Raised
    case Returned(p) =>
      if p.Failed? then Raised
      else if "track" in p.fields && p.fields["track"].NestedList? then Returned(p.fields["track"].models)
      else Raised
  }

  /** An empty `recenttracks` object parses to the content model's
      invalid-response error value, so reading `track` raises. */
  lemma EmptyContentRaises()
    ensures FromJson(ContentClass, ContentSchema, ContentField, JDict(map[])) == Returned(Failed(InvalidResponse(ContentClass)))
    ensures PageTracks(JDict(map[])).Raised?
  {
    assert ContentSchema[0].required && ContentSchema[0].name !in Unwrapped(map[]);
  }

  /** A `null` element of the track list raises in the scrobble parse and
      again in the fallback track parse, so the content parse raises. */
  lemma NullTrackRaises()
    ensures FromJson(ContentClass, ContentSchema, ContentField, JDict(map["track" := JList([JNull])])).Raised?
    ensures PageTracks(JDict(map["track" := JList([JNull])])).Raised?
  {
    var res := map["track" := JList([JNull])];
    assert Iterate(JList([JNull])).value[0] == JNull;
    assert ParseEntry(JNull).Raised?;
    assert ContentField("track", JList([JNull])).Raised?;
    assert Unwrapped(res)["track"] == JList([JNull]);
    assert HasRequired(ContentSchema, Unwrapped(res));
    assert "track" in Names(ContentSchema);
  }

  /** Parsing a nested object after its `@attr` and `#text` were popped
      raises exactly when parsing it before did. */
  lemma TouchedKeepsRaising(key: string, value: Json)
    ensures TrackField(key, Touched(key, value)).Raised? == TrackField(key, value).Raised?
  {
    if key == "image" && value.JList? {
      var items := value.items;
      var popped := Map(Popped, items);
      forall i | 0 <= i < |items| ensures Image(popped[i]).Raised? == Image(items[i]).Raised? {
        if items[i].JDict? {
          assert !FromResponse("ImageModel", ImageSchema, KeepRaw, Unwrapped(items[i].entries)).Raised?;
          assert !FromResponse("ImageModel", ImageSchema, KeepRaw, items[i].entries).Raised?;
        }
      }
    } else if (key == "artist" || key == "album") && value.JDict? {
      var cls := if key == "artist" then "ArtistModel" else "AlbumModel";
      assert !FromResponse(cls, ArtistSchema, KeepRaw, Unwrapped(value.entries)).Raised?;
      assert !FromResponse(cls, ArtistSchema, KeepRaw, value.entries).Raised?;
    }
  }

  lemma TrackNames()
    ensures "artist" in Names(TrackSchema)
    ensures Names(ScrobbleSchema) == Names(TrackSchema) + {"date"}
  {
    assert TrackSchema[4].name == "artist";
    assert forall f :: f in ScrobbleSchema <==> f in TrackSchema || f == Field("date", true);
  }

  /** The fallback parses what the scrobble attempt left. */
  lemma FallbackParsesConsumed(v: Json)
    requires v.JDict?
    requires FromJson(ScrobbleClass, ScrobbleSchema, ScrobbleField, v).Raised?
    ensures ParseEntry(v) == FromResponse(TrackClass, TrackSchema, TrackField, Consumed(v.entries))
  {
  }

  /** The scrobble attempt raises only with every required field present. */
  lemma ScrobbleRaised(e: map<string, Json>)
    requires FromResponse(ScrobbleClass, ScrobbleSchema, ScrobbleField, e).Raised?
    ensures !("error" in e && "message" in e)
    ensures HasRequired(TrackSchema, Unwrapped(e))
    ensures exists k :: k in Names(ScrobbleSchema) && k in Unwrapped(e) && ScrobbleField(k, e[k]).Raised?
  {
    RequiredOfPrefix(TrackSchema, [Field("date", true)], Unwrapped(e));
  }

  lemma RequiredOfPrefix(a: seq<Field>, b: seq<Field>, m: map<string, Json>)
    requires HasRequired(a + b, m)
    ensures HasRequired(a, m)
  {
    assert forall i :: 0 <= i < |a| ==> (a + b)[i] == a[i];
  }

  /** A track that is parsed from an object with its required fields
      present, and that does not raise, parsed every field. */
  lemma TrackReturned(left: map<string, Json>)
    requires FromResponse(TrackClass, TrackSchema, TrackField, left).Returned?
    requires !("error" in left && "message" in left) && Unwrapped(left) == left
    requires HasRequired(TrackSchema, left)
    ensures forall k :: k in Names(TrackSchema) && k in left ==> !TrackField(k, left[k]).Raised?
  {
  }

  /** The track fallback returns only when the scrobble attempt raised on
      `date`: every field a track shares with a scrobble parses, so by the
      time `date` raised every nested object had been parsed and popped. */
  lemma FallbackOnlyAfterDate(v: Json)
    requires v.JDict?
    requires FromJson(ScrobbleClass, ScrobbleSchema, ScrobbleField, v).Raised?
    requires ParseEntry(v).Returned?
    ensures "date" in Unwrapped(v.entries) && ScrobbleField("date", v.entries["date"]).Raised?
    ensures forall k :: k in Names(TrackSchema) && k in Unwrapped(v.entries) ==> !TrackField(k, v.entries[k]).Raised?
  {
    var e := v.entries;
    var left := Consumed(e);
    FallbackParsesConsumed(v);
    ScrobbleRaised(e);
    TrackReturned(left);
    TrackNames();
    forall k | k in Names(TrackSchema) && k in Unwrapped(e) ensures !TrackField(k, e[k]).Raised? {
      TouchedKeepsRaising(k, e[k]);
    }
    var k :| k in Names(ScrobbleSchema) && k in Unwrapped(e) && ScrobbleField(k, e[k]).Raised?;
    if k != "date" {
      assert false;
    }
  }

  lemma ConsumedArtist(e: map<string, Json>)
    requires "artist" in e
    ensures "artist" in Consumed(e) && Consumed(e)["artist"] == Popped(e["artist"])
  {
    assert "artist" in Unwrapped(e);
  }

  /** The track the fallback builds has lost its artist's name: the
      scrobble attempt popped the artist object's `#text`. */
  lemma FallbackLosesArtistName(v: Json)
    requires v.JDict? && "artist" in v.entries && v.entries["artist"].JDict?
    requires FromJson(ScrobbleClass, ScrobbleSchema, ScrobbleField, v).Raised?
    requires ParseEntry(v).Returned? && ParseEntry(v).value.Built?
    ensures "artist" in ParseEntry(v).value.fields
    ensures var a := ParseEntry(v).value.fields["artist"];
      a.Nested? && (a.model.Built? ==> a.model.text == JNull)
  {
    var left := Consumed(v.entries);
    FallbackParsesConsumed(v);
    var fallback := FromResponse(TrackClass, TrackSchema, TrackField, left);
    TrackNames();
    ConsumedArtist(v.entries);
    var artist := Unwrapped(v.entries["artist"].entries);
    var a := FromResponse("ArtistModel", ArtistSchema, KeepRaw, artist).value;
    assert TrackField("artist", left["artist"]) == Returned(Some(Nested(a)));
    assert fallback.value.fields["artist"] == Nested(a);
  }

  /** A string, list or scalar never parses to a model of a class whose
      fields are all required: a value holding every field name raises on
      `res[k]`. */
  lemma NonObjectNeverBuilt<P>(cls: string, schema: seq<Field>, parse: (string, Json) -> Attempt<Option<P>>, value: Json)
    requires !value.JDict?
    requires |schema| > 0 && forall i :: 0 <= i < |schema| ==> schema[i].required
    ensures !(FromJson(cls, schema, parse, value).Returned? && FromJson(cls, schema, parse, value).value.Built?)
  {
    if RequiredIn(schema, value) {
      assert In(schema[0].name, value) == Returned(true);
    }
  }

  /** An element that is not an object is never a scrobble nor a track. */
  lemma NonObjectEntryNeverBuilt(v: Json)
    requires !v.JDict?
    ensures ParseEntry(v).Raised? || ParseEntry(v).value.Failed?
  {
    NonObjectNeverBuilt(ScrobbleClass, ScrobbleSchema, ScrobbleField, v);
    NonObjectNeverBuilt(TrackClass, TrackSchema, TrackField, v);
  }

  /** A `track` value that is a single object, as last.fm sends for one
      track, is iterated by its keys: the page holds no model at all, so its
      scrobble is lost. */
  lemma SingleObjectTrackIsLost(m: map<string, Json>)
    requires ContentField("track", JDict(m)).Returned?
    ensures forall t :: t in ContentField("track", JDict(m)).value.value.models ==> t.Failed?
  {
    var vs := Iterate(JDict(m)).value;
    var models := ContentField("track", JDict(m)).value.value.models;
    forall t | t in models ensures t.Failed? {
      var i :| 0 <= i < |models| && models[i] == t;
      assert vs[i] in vs;
      NonObjectEntryNeverBuilt(vs[i]);
    }
  }

  /** An artist given as a plain string holding none of the special keys is
      not an exception: the track gets an invalid-response error as its
      artist. */
  lemma StringArtistIsError(s: string)
    requires !Contains(s, "@attr") && !Contains(s, "#text") && !Contains(s, "mbid")
    requires !(Contains(s, "error") && Contains(s, "message"))
    ensures TrackField("artist", JStr(s)) == Returned(Some(Nested(Failed(InvalidResponse("ArtistModel")))))
  {
    assert !RequiredIn(ArtistSchema, JStr(s)) by {
      assert ArtistSchema[0] == Field("mbid", true);
    }
  }

  /** An entry without a `date` (a now-playing track) is not a scrobble: the
      scrobble parse returns the invalid-response error instead of raising,
      so the list holds that error and the track fallback is never tried. */
  lemma NowPlayingEntryIsError(entry: map<string, Json>)
    requires "date" !in entry
    requires !("error" in entry && "message" in entry)
    ensures ParseEntry(JDict(entry)) == Returned(Failed(InvalidResponse("ScrobbleModel")))
  {
    assert ScrobbleSchema[7] == Field("date", true);
    assert !HasRequired(ScrobbleSchema, Unwrapped(entry));
  }

  /** Keys outside the schema, other than the error and special keys, do not
      change what `from_response` returns. */
  lemma ExtraKeysIgnored<P>(cls: string, schema: seq<Field>, parse: (string, Json) -> Attempt<Option<P>>,
                            res: map<string, Json>, key: string, value: Json)
    requires key !in Names(schema) && key !in {"error", "message", "@attr", "#text"}
    ensures FromResponse(cls, schema, parse, res[key := value]) == FromResponse(cls, schema, parse, res)
  {
    var res' := res[key := value];
    assert ("error" in res' && "message" in res') == ("error" in res && "message" in res);
    if cls != ErrorClass && "error" in res && "message" in res {
      assert res'["error"] == res["error"] && res'["message"] == res["message"];
    } else {
      var rest := Unwrapped(res);
      assert Unwrapped(res') == rest[key := value];
      RequiredIgnoresExtraKey(schema, rest, key, value);
      ParseFieldsIgnoresExtraKey(schema, parse, rest, key, value);
      assert ("@attr" in res' ==> res'["@attr"] == res["@attr"]) && ("#text" in res' ==> res'["#text"] == res["#text"]);
    }
  }

  /** A key outside the model's fields does not decide whether the required
      fields are present. */
  lemma RequiredIgnoresExtraKey(schema: seq<Field>, res: map<string, Json>, key: string, value: Json)
    requires key !in Names(schema)
    ensures HasRequired(schema, res[key := value]) <==> HasRequired(schema, res)
  {
    forall i | 0 <= i < |schema| ensures schema[i].name in res[key := value] <==> schema[i].name in res {
      assert schema[i].name in Names(schema);
    }
  }

  lemma {:induction false} ParseFieldsIgnoresExtraKey<P>(schema: seq<Field>, parse: (string, Json) -> Attempt<Option<P>>,
                                                       res: map<string, Json>, key: string, value: Json)
    requires key !in Names(schema)
    ensures ParseFields(schema, parse, res[key := value]) == ParseFields(schema, parse, res)
  {
    if |schema| > 0 {
      assert schema[0].name in Names(schema);
      assert Names(schema[1..]) <= Names(schema) by {
        forall f | f in schema[1..] ensures f in schema { }
      }
      ParseFieldsIgnoresExtraKey(schema[1..], parse, res, key, value);
    }
  }

  // ---------------------------------------------------------------------------
  // Track identity and the now-playing flag

  /** A scrobble as the database stores it: the ScrobbleModel's `mbid`,
      `name`, `artist.name`, `album.name` and `date.uts`. */
  datatype Scrobble = Scrobble(mbid: string, name: string, artistName: string, albumName: string, uts: int)

  /** `TrackModel.track_id`: `hash` stands for `sha256(...).hexdigest()` of
      the unseparated concatenation of the four identifying fields. */
  function TrackId(s: Scrobble, hash: string -> string): string
  {
    hash(s.mbid + s.name + s.artistName + s.albumName)
  }

  /** Scrobbles whose four identifying fields concatenate to the same text get
      the same id, whatever the time of play. */
  lemma SameConcatenationSameId(s1: Scrobble, s2: Scrobble, hash: string -> string)
    requires s1.mbid + s1.name + s1.artistName + s1.albumName == s2.mbid + s2.name + s2.artistName + s2.albumName
    ensures TrackId(s1, hash) == TrackId(s2, hash)
  {
  }

  /** Without separators, two different tracks can share an id: title "ab" by
      artist "c" and title "a" by artist "bc". */
  lemma FieldBoundariesAreLost(hash: string -> string, uts: int)
    ensures TrackId(Scrobble("", "ab", "c", "", uts), hash) == TrackId(Scrobble("", "a", "bc", "", uts), hash)
  {
    assert "" + "ab" + "c" + "" == "" + "a" + "bc" + "";
  }

  /** `isinstance(t, ScrobbleModel)`. */
  predicate IsScrobbleModel(t: Parsed<Value>)
  {
    t.Built? && t.cls == ScrobbleClass
  }

  /** A JSON value used as text. Only strings are read; any other value is
      taken as raising. */
  function TextOf(j: Json): Attempt<string>
  {
    if j.JStr? then Returned(j.s) else Raised
  }

  /** A top-level text field of a model, such as `mbid` or `name`. */
  function RawText(p: Parsed<Value>, key: string): Attempt<string>
    requires p.Built?
  {
    if key in p.fields && p.fields[key].Raw? then TextOf(p.fields[key].json) else Raised
  }

  /** `artist.name` or `album.name`: the nested model's `_text`. The property
      asserts that it is not None, and an error value in the field has no
      `name` at all. */
  function NameOf(p: Parsed<Value>, key: string): Attempt<string>
    requires p.Built?
  {
    if key in p.fields && p.fields[key].Nested? && p.fields[key].model.Built? then TextOf(p.fields[key].model.text)
    else Raised
  }

  /** `date.uts`: an error value in the field has no `uts`. */
  function UtsOf(p: Parsed<Value>): Attempt<int>
    requires p.Built?
  {
    if "date" in p.fields && p.fields["date"].Nested? && p.fields["date"].model.Built?
       && "uts" in p.fields["date"].model.fields && p.fields["date"].model.fields["uts"].Int?
    then Returned(p.fields["date"].model.fields["uts"].n)
    else Raised
  }

  /** What `add_scrobble_from_api` reads from a ScrobbleModel: `mbid`,
      `name`, `artist.name`, `album.name` and `date.uts`. Any of them that
      fails raises. */
  function ScrobbleRecord(p: Parsed<Value>): (r: Attempt<Scrobble>)
    requires IsScrobbleModel(p)
    ensures r.Returned? <==>
      RawText(p, "mbid").Returned? && RawText(p, "name").Returned?
      && NameOf(p, "artist").Returned? && NameOf(p, "album").Returned? && UtsOf(p).Returned?
    ensures r.Returned? ==>
      && Returned(r.value.mbid) == RawText(p, "mbid") && Returned(r.value.name) == RawText(p, "name")
      && Returned(r.value.artistName) == NameOf(p, "artist")
      && Returned(r.value.albumName) == NameOf(p, "album")
      && Returned(r.value.uts) == UtsOf(p)
  {
    match (RawText(p, "mbid"), RawText(p, "name"), NameOf(p, "artist"), NameOf(p, "album"), UtsOf(p))
    case (Returned(mbid), Returned(name), Returned(artist), Returned(album), Returned(uts)) =>
      Returned(Scrobble(mbid, name, artist, album, uts))
    case _ => Raised
  }

  /** `track_id` of a built track or scrobble model. It reads `mbid`,
      `name`, `artist.name` and `album.name` but not the date, and it is the
      id `add_scrobble_from_api` stores for the scrobble. */
  function ModelTrackId(p: Parsed<Value>, hash: string -> string): (r: Attempt<string>)
    requires p.Built?
    ensures r.Returned? <==>
      RawText(p, "mbid").Returned? && RawText(p, "name").Returned?
      && NameOf(p, "artist").Returned? && NameOf(p, "album").Returned?
    ensures IsScrobbleModel(p) && ScrobbleRecord(p).Returned? ==> r == Returned(TrackId(ScrobbleRecord(p).value, hash))
  {
    match (RawText(p, "mbid"), RawText(p, "name"), NameOf(p, "artist"), NameOf(p, "album"))
    case (Returned(mbid), Returned(name), Returned(artist), Returned(album)) =>
      Returned(hash(mbid + name + artist + album))
    case _ => Raised
  }

  /** An artist object without `#text` fails the assertion in `name`, so
      the scrobble cannot be stored. */
  lemma NamelessArtistRaises(p: Parsed<Value>)
    requires IsScrobbleModel(p)
    requires "artist" in p.fields && p.fields["artist"].Nested? && p.fields["artist"].model.Built?
    requires p.fields["artist"].model.text == JNull
    ensures ScrobbleRecord(p).Raised?
  {
  }

  /** A field of the JSON last.fm sends for a scrobble: each text field a
      string (`url` and `streamable` empty), the artist and album as objects
      carrying their name in `#text`, no images, and the date as an object
      whose `uts` is the decimal time. */
  function EntryField(s: Scrobble, key: string): Json
  {
    if key == "mbid" then JStr(s.mbid)
    else if key == "name" then JStr(s.name)
    else if key == "artist" then JDict(map["mbid" := JStr(""), "#text" := JStr(s.artistName)])
    else if key == "album" then JDict(map["mbid" := JStr(""), "#text" := JStr(s.albumName)])
    else if key == "image" then JList([])
    else if key == "date" then JDict(map["uts" := JStr(IntToString(s.uts)), "#text" := JStr("")])
    else JStr("")
  }

  /** The JSON object of a scrobble: one entry per field. */
  function EntryJson(s: Scrobble): map<string, Json>
  {
    map k | k in Names(ScrobbleSchema) :: EntryField(s, k)
  }

  /** An object holding one required field and `#text` builds the model
      with that field parsed and the text kept. */
  lemma OneFieldObject<P>(cls: string, key: string, parse: (string, Json) -> Attempt<Option<P>>,
                          raw: Json, text: Json, v: P)
    requires key !in {"error", "message", "@attr", "#text"}
    requires parse(key, raw) == Returned(Some(v))
    ensures FromResponse(cls, [Field(key, true)], parse, map[key := raw, "#text" := text])
         == Returned(Built(cls, JDict(map[]), text, map[key := v]))
  {
    var o := map[key := raw, "#text" := text];
    assert Names([Field(key, true)]) == {key};
    assert Unwrapped(o) == map[key := raw];
    assert HasRequired([Field(key, true)], Unwrapped(o));
    var r := FromResponse(cls, [Field(key, true)], parse, o);
    assert r.Returned? && r.value.Built?;
    assert r.value.fields.Keys == {key};
    assert r.value.fields == map[key := v];
  }

  /** An artist or album object with its name in `#text`. */
  lemma NamedObject(cls: string, name: string)
    ensures var o := map["mbid" := JStr(""), "#text" := JStr(name)];
      FromResponse(cls, ArtistSchema, KeepRaw, o) == Returned(Built(cls, JDict(map[]), JStr(name), map["mbid" := Raw(JStr(""))]))
  {
    assert ArtistSchema == [Field("mbid", true)];
    OneFieldObject(cls, "mbid", KeepRaw, JStr(""), JStr(name), Raw(JStr("")));
  }

  /** A date object with the decimal time in `uts`. */
  lemma DateObject(n: int)
    ensures var o := map["uts" := JStr(IntToString(n)), "#text" := JStr("")];
      FromResponse("DateModel", DateSchema, DateField, o) == Returned(Built("DateModel", JDict(map[]), JStr(""), map["uts" := Int(n)]))
  {
    IntToStringRoundTrip(n);
    assert DateField("uts", JStr(IntToString(n))) == Returned(Some(Int(n)));
    OneFieldObject("DateModel", "uts", DateField, JStr(IntToString(n)), JStr(""), Int(n));
  }

  /** Each field of a scrobble's JSON parses to a value. */
  lemma EntryFieldParses(s: Scrobble, key: string)
    ensures ScrobbleField(key, EntryField(s, key)).Returned? && ScrobbleField(key, EntryField(s, key)).value.Some?
    ensures key == "mbid" ==> ScrobbleField(key, EntryField(s, key)) == Returned(Some(Raw(JStr(s.mbid))))
    ensures key == "name" ==> ScrobbleField(key, EntryField(s, key)) == Returned(Some(Raw(JStr(s.name))))
    ensures key == "artist" ==>
      ScrobbleField(key, EntryField(s, key)) == Returned(Some(Nested(Built("ArtistModel", JDict(map[]), JStr(s.artistName), map["mbid" := Raw(JStr(""))]))))
    ensures key == "album" ==>
      ScrobbleField(key, EntryField(s, key)) == Returned(Some(Nested(Built("AlbumModel", JDict(map[]), JStr(s.albumName), map["mbid" := Raw(JStr(""))]))))
    ensures key == "date" ==>
      ScrobbleField(key, EntryField(s, key)) == Returned(Some(Nested(Built("DateModel", JDict(map[]), JStr(""), map["uts" := Int(s.uts)]))))
  {
    if key == "artist" {
      NamedField("artist", "ArtistModel", s.artistName);
    } else if key == "album" {
      NamedField("album", "AlbumModel", s.albumName);
    } else if key == "date" {
      DateFieldOf(s.uts);
    } else if key == "image" {
      EmptyImages();
    }
  }

  lemma NamedField(key: string, cls: string, name: string)
    requires (key == "artist" && cls == "ArtistModel") || (key == "album" && cls == "AlbumModel")
    ensures ScrobbleField(key, JDict(map["mbid" := JStr(""), "#text" := JStr(name)]))
         == Returned(Some(Nested(Built(cls, JDict(map[]), JStr(name), map["mbid" := Raw(JStr(""))]))))
  {
    NamedObject(cls, name);
  }

  lemma DateFieldOf(n: int)
    ensures ScrobbleField("date", JDict(map["uts" := JStr(IntToString(n)), "#text" := JStr("")]))
         == Returned(Some(Nested(Built("DateModel", JDict(map[]), JStr(""), map["uts" := Int(n)]))))
  {
    DateObject(n);
  }

  lemma EmptyImages()
    ensures ScrobbleField("image", JList([])) == Returned(Some(NestedList([])))
  {
    assert ParseEach(Image, []) == Returned([]);
  }

  /** No field is named like a special key. */
  lemma NoSpecialField()
    ensures "@attr" !in Names(ScrobbleSchema) && "#text" !in Names(ScrobbleSchema) && "error" !in Names(ScrobbleSchema)
  {
    NotAField("@attr");
    NotAField("#text");
    NotAField("error");
  }

  lemma NotAField(key: string)
    requires key in {"@attr", "#text", "error"}
    ensures key !in Names(ScrobbleSchema)
  {
  }

  /** The JSON of a scrobble parses to a ScrobbleModel from which
      `add_scrobble_from_api` reads the same scrobble back. */
  lemma EntryRoundTrip(s: Scrobble)
    ensures ParseEntry(JDict(EntryJson(s))).Returned?
    ensures IsScrobbleModel(ParseEntry(JDict(EntryJson(s))).value)
    ensures ScrobbleRecord(ParseEntry(JDict(EntryJson(s))).value) == Returned(s)
  {
    var e := EntryJson(s);
    NoSpecialField();
    assert Unwrapped(e) == e;
    assert HasRequired(ScrobbleSchema, e) by {
      forall i | 0 <= i < |ScrobbleSchema| ensures ScrobbleSchema[i].name in e {
        assert ScrobbleSchema[i] in ScrobbleSchema;
      }
    }
    forall k | k in e ensures ScrobbleField(k, e[k]).Returned? && ScrobbleField(k, e[k]).value.Some? {
      EntryFieldParses(s, k);
    }
    var r := FromResponse(ScrobbleClass, ScrobbleSchema, ScrobbleField, e);
    assert r.Returned? && r.value.Built?;
    var p := r.value;
    RecordFields(s, p);
  }

  lemma RecordFields(s: Scrobble, p: Parsed<Value>)
    requires p.Built? && p.cls == ScrobbleClass
    requires p.fields.Keys == Names(ScrobbleSchema)
    requires forall k :: k in p.fields ==> ScrobbleField(k, EntryField(s, k)) == Returned(Some(p.fields[k]))
    ensures ScrobbleRecord(p) == Returned(s)
  {
    assert ScrobbleSchema[0].name == "mbid" && ScrobbleSchema[1].name == "name";
    assert ScrobbleSchema[4].name == "artist" && ScrobbleSchema[5].name == "album" && ScrobbleSchema[7].name == "date";
    EntryFieldParses(s, "mbid");
    EntryFieldParses(s, "name");
    EntryFieldParses(s, "artist");
    EntryFieldParses(s, "album");
    EntryFieldParses(s, "date");
  }

  /** The JSON of a scrobble whose `date.uts` is the text `uts`. */
  function UnreadableDateJson(s: Scrobble, uts: string): map<string, Json>
  {
    map k | k in Names(ScrobbleSchema) :: if k == "date" then JDict(map["uts" := JStr(uts), "#text" := JStr("")]) else EntryField(s, k)
  }

  /** An object holding one required field and nothing else builds the
      model with that field parsed and no text. */
  lemma OneFieldBare<P>(cls: string, key: string, parse: (string, Json) -> Attempt<Option<P>>, raw: Json, v: P)
    requires key !in {"error", "message", "@attr", "#text"}
    requires parse(key, raw) == Returned(Some(v))
    ensures FromResponse(cls, [Field(key, true)], parse, map[key := raw]) == Returned(Built(cls, JDict(map[]), JNull, map[key := v]))
  {
    var o := map[key := raw];
    assert Names([Field(key, true)]) == {key};
    assert Unwrapped(o) == o;
    var r := FromResponse(cls, [Field(key, true)], parse, o);
    assert r.Returned? && r.value.Built?;
    assert r.value.fields.Keys == {key};
    assert r.value.fields == map[key := v];
  }

  /** A date whose `uts` is not an integer makes `int()` raise. */
  lemma UnreadableDateRaises(uts: string)
    requires ParseInt(uts).None?
    ensures ScrobbleField("date", JDict(map["uts" := JStr(uts), "#text" := JStr("")])).Raised?
  {
    var o := map["uts" := JStr(uts), "#text" := JStr("")];
    assert Names(DateSchema) == {"uts"};
    assert Unwrapped(o) == map["uts" := JStr(uts)];
    assert HasRequired(DateSchema, Unwrapped(o));
    assert DateField("uts", o["uts"]).Raised?;
  }

  /** Each track field of a scrobble's JSON still parses after the scrobble
      attempt popped the `#text` of the artist and album objects. */
  lemma TouchedFieldParses(s: Scrobble, key: string)
    requires key in Names(TrackSchema)
    ensures TrackField(key, Touched(key, EntryField(s, key))).Returned?
    ensures TrackField(key, Touched(key, EntryField(s, key))).value.Some?
  {
    if key == "artist" || key == "album" {
      var name := if key == "artist" then s.artistName else s.albumName;
      var cls := if key == "artist" then "ArtistModel" else "AlbumModel";
      assert Unwrapped(map["mbid" := JStr(""), "#text" := JStr(name)]) == map["mbid" := JStr("")];
      assert ArtistSchema == [Field("mbid", true)] && AlbumSchema == ArtistSchema;
      OneFieldBare(cls, "mbid", KeepRaw, JStr(""), Raw(JStr("")));
    } else if key == "image" {
      assert Map(Popped, []) == [];
      assert ParseEach(Image, []) == Returned([]);
    }
  }

  /** The scrobble attempt on such an object raises on its date. */
  lemma UnreadableDateScrobbleRaises(s: Scrobble, uts: string)
    requires ParseInt(uts).None?
    ensures FromJson(ScrobbleClass, ScrobbleSchema, ScrobbleField, JDict(UnreadableDateJson(s, uts))).Raised?
  {
    var e := UnreadableDateJson(s, uts);
    NoSpecialField();
    assert Unwrapped(e) == e;
    assert HasRequired(ScrobbleSchema, e) by {
      forall i | 0 <= i < |ScrobbleSchema| ensures ScrobbleSchema[i].name in e {
        assert ScrobbleSchema[i] in ScrobbleSchema;
      }
    }
    assert ScrobbleSchema[7].name == "date";
    UnreadableDateRaises(uts);
    assert "date" in Names(ScrobbleSchema) && "date" in Unwrapped(e) && ScrobbleField("date", e["date"]).Raised?;
  }

  /** What the scrobble attempt leaves of such an object keeps every field. */
  lemma UnreadableDateKeys(s: Scrobble, uts: string)
    ensures Unwrapped(Consumed(UnreadableDateJson(s, uts))).Keys == Names(ScrobbleSchema)
  {
    NoSpecialField();
    assert Unwrapped(UnreadableDateJson(s, uts)) == UnreadableDateJson(s, uts);
  }

  /** What the scrobble attempt leaves of such an object has every track
      field, and each of them parses. */
  lemma UnreadableDateLeftover(s: Scrobble, uts: string)
    ensures HasRequired(TrackSchema, Unwrapped(Consumed(UnreadableDateJson(s, uts))))
    ensures forall k :: k in Names(TrackSchema) && k in Unwrapped(Consumed(UnreadableDateJson(s, uts))) ==>
      TrackField(k, Consumed(UnreadableDateJson(s, uts))[k]).Returned?
      && TrackField(k, Consumed(UnreadableDateJson(s, uts))[k]).value.Some?
  {
    var c := Consumed(UnreadableDateJson(s, uts));
    UnreadableDateKeys(s, uts);
    TrackNames();
    forall i | 0 <= i < |TrackSchema| ensures TrackSchema[i].name in Unwrapped(c) {
      assert TrackSchema[i].name in Names(TrackSchema);
    }
    forall k | k in Names(TrackSchema) && k in Unwrapped(c)
      ensures TrackField(k, c[k]).Returned? && TrackField(k, c[k]).value.Some?
    {
      TouchedFieldParses(s, k);
    }
  }

  /** A scrobble whose `date.uts` is not a number is parsed as a plain
      track, without a date, so the page does not yield it as a scrobble. */
  lemma UnreadableDateBecomesTrack(s: Scrobble, uts: string)
    requires ParseInt(uts).None?
    ensures ParseEntry(JDict(UnreadableDateJson(s, uts))).Returned?
    ensures ParseEntry(JDict(UnreadableDateJson(s, uts))).value.Built?
    ensures ParseEntry(JDict(UnreadableDateJson(s, uts))).value.cls == TrackClass
  {
    var e := UnreadableDateJson(s, uts);
    UnreadableDateScrobbleRaises(s, uts);
    FallbackParsesConsumed(JDict(e));
    UnreadableDateLeftover(s, uts);
    assert !("error" in Consumed(e) && "message" in Consumed(e)) by {
      NoSpecialField();
      TrackNames();
    }
  }

  /** `TrackModel.is_now_playing`: `"nowplaying" in self._attr and
      self._attr["nowplaying"] == "true"`. The `in` raises on a value that
      is not an object, string or list, and the subscript raises on a
      string or list, which cannot be indexed by a key. */
  function IsNowPlaying(attr: Json): (r: Attempt<bool>)
    ensures r == Returned(true) <==>
      attr.JDict? && "nowplaying" in attr.entries && attr.entries["nowplaying"] == JStr("true")
    ensures r.Raised? <==> !attr.JDict? && In("nowplaying", attr) != Returned(false)
    ensures attr.JStr? ==> (r.Raised? <==> Contains(attr.s, "nowplaying"))
    ensures attr.JNull? ==> r.Raised?
  {
    match In("nowplaying", attr)
    case Raised => Raised
    case Returned(found) =>
      if !found then Returned(false)
      else if attr.JDict? then Returned(attr.entries["nowplaying"] == JStr("true"))
      else Raised
  }

  /** A built track is now playing exactly when its response carried an
      `@attr` object whose `nowplaying` is the string "true"; it is not
      playing when the response had no `@attr`; and the property raises
      exactly when `@attr` was something other than an object that `in`
      rejects or finds "nowplaying" in. */
  lemma NowPlayingFromResponse<P>(cls: string, schema: seq<Field>, parse: (string, Json) -> Attempt<Option<P>>,
                                  res: map<string, Json>)
    requires FromResponse(cls, schema, parse, res).Returned?
    requires FromResponse(cls, schema, parse, res).value.Built?
    ensures IsNowPlaying(FromResponse(cls, schema, parse, res).value.attr) == Returned(true) <==>
      "@attr" in res && res["@attr"].JDict? && "nowplaying" in res["@attr"].entries
      && res["@attr"].entries["nowplaying"] == JStr("true")
    ensures "@attr" !in res ==> IsNowPlaying(FromResponse(cls, schema, parse, res).value.attr) == Returned(false)
    ensures IsNowPlaying(FromResponse(cls, schema, parse, res).value.attr).Raised? <==>
      "@attr" in res && !res["@attr"].JDict? && In("nowplaying", res["@attr"]) != Returned(false)
  {
  }

  /** `"@attr": null` passes `from_response`, and `is_now_playing` on the
      model then raises `TypeError`. */
  lemma NullAttrRaises<P>(cls: string, schema: seq<Field>, parse: (string, Json) -> Attempt<Option<P>>,
                          res: map<string, Json>)
    requires FromResponse(cls, schema, parse, res).Returned?
    requires FromResponse(cls, schema, parse, res).value.Built?
    requires "@attr" in res && res["@attr"] == JNull
    ensures IsNowPlaying(FromResponse(cls, schema, parse, res).value.attr).Raised?
  {
  }
}
