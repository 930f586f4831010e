/** The query parameters of a last.fm request (`LastFMAPIRequest.__init__`
    in src/navidrome_fm/api.py): every keyword argument rendered with
    `str()`, a list rendered as its items' `str()` joined by commas, and
    then `method`, `api_key` and `format=json` set on top. */
module Request {
  import opened Text
  import opened Seqs

  /** The two API methods the client calls. */
  datatype ApiMethod = RecentTracks | Info

  /** `str(method)`: the method's value. */
  function MethodName(m: ApiMethod): string
  {
    match m
    case RecentTracks => "user.getrecenttracks"
    case Info => "user.getinfo"
  }

  /** A keyword argument's value: a string, an integer, or a list of those. */
  datatype Scalar = SStr(s: string) | SInt(n: int)
  datatype QueryValue = One(v: Scalar) | Many(items: seq<Scalar>)

  /** Python's `str()` on a scalar. */
  function Str(v: Scalar): string
  {
    match v
    case SStr(s) => s
    case SInt(n) => IntToString(n)
  }

  /** `",".join([str(x) for x in v])` for a list, `str(v)` otherwise. */
  function Encode(v: QueryValue): string
  {
    match v
    case One(x) => Str(x)
    case Many(xs) => Join(Map(Str, xs), ',')
  }

  /** The keys the constructor always sets. */
  const Reserved: set<string> := {"method", "api_key", "format"}

  /** The constructor's own parameter names: a keyword argument with one
      of these names binds to that parameter and never reaches the query. */
  const ConstructorParams: set<string> := {"method", "api_key", "headers", "logger"}

  /** `self.parameters` after `__init__`. The keyword arguments cannot
      include `method`, `api_key`, `headers` or `logger`, which are the
      constructor's own parameters; a `format` argument is overridden. */
  function Parameters(m: ApiMethod, apiKey: string, query: map<string, QueryValue>): (r: map<string, string>)
    requires query.Keys !! ConstructorParams
    ensures r.Keys == query.Keys + Reserved
    ensures r["method"] == MethodName(m) && r["api_key"] == apiKey && r["format"] == "json"
    ensures forall k :: k in query && k !in Reserved ==> r[k] == Encode(query[k])
  {
    var rendered := map k | k in query :: Encode(query[k]);
    rendered["method" := MethodName(m)]["api_key" := apiKey]["format" := "json"]
  }

  /** A list argument splits back into its items' renderings, provided it
      is not empty and no item renders with a comma. */
  lemma ListArgumentRoundTrip(m: ApiMethod, apiKey: string, query: map<string, QueryValue>, k: string)
    requires query.Keys !! ConstructorParams
    requires k in query && k !in Reserved && query[k].Many? && |query[k].items| >= 1
    requires forall i :: 0 <= i < |query[k].items| ==> ',' !in Str(query[k].items[i])
    ensures Split(Parameters(m, apiKey, query)[k], ',') == Map(Str, query[k].items)
  {
    SplitJoin(Map(Str, query[k].items), ',');
  }

  /** An integer argument reads back as the same integer. */
  lemma IntArgumentRoundTrip(m: ApiMethod, apiKey: string, query: map<string, QueryValue>, k: string)
    requires query.Keys !! ConstructorParams
    requires k in query && k !in Reserved && query[k].One? && query[k].v.SInt?
    ensures ParseInt(Parameters(m, apiKey, query)[k]) == Some(query[k].v.n)
  {
    IntToStringRoundTrip(query[k].v.n);
  }

  /** An empty list and a list holding one empty string are sent alike. */
  lemma EmptyListIsAmbiguous()
    ensures Encode(Many([])) == Encode(Many([SStr("")])) == ""
  {
    assert Map(Str, [SStr("")]) == [""];
  }

  /** The query of one `user.getrecenttracks` page: `user`, `extended=0`
      and `page`. */
  function PageQuery(user: string, page: int): map<string, QueryValue>
  {
    map["user" := One(SStr(user)), "extended" := One(SInt(0)), "page" := One(SInt(page))]
  }

  /** The query of `user.getinfo`: `user` alone. */
  function InfoQuery(user: string): map<string, QueryValue>
  {
    map["user" := One(SStr(user))]
  }

  /** A page request carries exactly six parameters, and its user and page
      are the ones asked for. */
  lemma PageRequest(apiKey: string, user: string, page: int)
    ensures var r := Parameters(RecentTracks, apiKey, PageQuery(user, page));
      && r.Keys == {"user", "extended", "page", "method", "api_key", "format"}
      && r["method"] == "user.getrecenttracks"
      && r["user"] == user && r["extended"] == "0"
      && ParseInt(r["page"]) == Some(page)
  {
    IntArgumentRoundTrip(RecentTracks, apiKey, PageQuery(user, page), "page");
    assert IntToString(0) == "0";
  }

  /** An info request carries the user and the three fixed parameters. */
  lemma InfoRequest(apiKey: string, user: string)
    ensures var r := Parameters(Info, apiKey, InfoQuery(user));
      && r.Keys == {"user", "method", "api_key", "format"}
      && r["method"] == "user.getinfo" && r["user"] == user
  {
  }
}
