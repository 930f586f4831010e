/** `get_recenttracks` of src/navidrome_fm/api.py: a generator that fetches
    the page it is told to start from, yields that page's scrobbles, and
    moves on to the page after the one the response reports, until a
    response reports itself as the last page or is an error, which is
    raised. The network is a parameter: `fetch(p)` is what
    `RecentTracksResponseModel.from_response` returns for page `p`, read
    through its `track` property. */
module Pages {
  import opened Seqs
  import Api
  import Text

  /** A page response: its `page` and `total_pages` attributes and its
      parsed track list, or a `LastFMAPIError`, or a response whose track
      list cannot be had because the request or `res.track` raised. */
  datatype Fetched =
    | Page(page: int, totalPages: int, track: seq<Api.Parsed<Api.Value>>)
    | PageError(err: Api.ApiError)
    | PageRaised

  /** How the generator stands after a number of requests: returned after
      the last page, raised an API error, raised some other exception, or
      still has page `next` to fetch. */
  datatype End = Exhausted | Raised(err: Api.ApiError) | Crashed | Pending(next: int)

  datatype Stream = Stream(yielded: seq<Api.Parsed<Api.Value>>, end: End)

  /** What one page yields. */
  function PageScrobbles(track: seq<Api.Parsed<Api.Value>>): (r: seq<Api.Parsed<Api.Value>>)
    ensures forall t :: t in r <==> t in track && Api.IsScrobbleModel(t)
  {
    Filter(Api.IsScrobbleModel, track)
  }

  /** The generator consumed for at most `requests` page requests, from `page`. */
  function Walk(fetch: int -> Fetched, page: int, requests: nat): (r: Stream)
    // nothing but scrobble models is yielded
    ensures forall t :: t in r.yielded ==> Api.IsScrobbleModel(t)
    // the first page's scrobbles come first, before any later page's
    ensures requests > 0 && fetch(page).Page? ==> PageScrobbles(fetch(page).track) <= r.yielded
    decreases requests
  {
    if requests == 0 then Stream([], Pending(page))
    else match fetch(page)
      case PageError(e) => Stream([], Raised(e))
      case PageRaised => Stream([], Crashed)
      case Page(p, total, track) =>
        if p == total then Stream(PageScrobbles(track), Exhausted)
        else
          var rest := Walk(fetch, p + 1, requests - 1);
          Stream(PageScrobbles(track) + rest.yielded, rest.end)
  }

  /** The walk with what was yielded so far carried along, the shape of
      the generator's loop. */
  function WalkFrom(fetch: int -> Fetched, page: int, left: nat, yielded: seq<Api.Parsed<Api.Value>>): (r: Stream)
    decreases left
  {
    if left == 0 then Stream(yielded, Pending(page))
    else match fetch(page)
      case PageError(e) => Stream(yielded, Raised(e))
      case PageRaised => Stream(yielded, Crashed)
      case Page(p, total, track) =>
        if p == total then Stream(yielded + PageScrobbles(track), Exhausted)
        else WalkFrom(fetch, p + 1, left - 1, yielded + PageScrobbles(track))
  }

  /** Carrying the yielded prefix along is the same as prepending it. */
  lemma {:induction false} WalkFromIsWalk(fetch: int -> Fetched, page: int, left: nat, yielded: seq<Api.Parsed<Api.Value>>)
    ensures WalkFrom(fetch, page, left, yielded) == Stream(yielded + Walk(fetch, page, left).yielded, Walk(fetch, page, left).end)
    decreases left
  {
    if left == 0 {
      assert yielded + [] == yielded;
    } else {
      match fetch(page)
      case PageError(e) =>
        assert yielded + [] == yielded;
      case PageRaised =>
        assert yielded + [] == yielded;
      case Page(p, total, track) =>
        if p != total {
          var here := PageScrobbles(track);
          WalkFromIsWalk(fetch, p + 1, left - 1, yielded + here);
          assert (yielded + here) + Walk(fetch, p + 1, left - 1).yielded
              == yielded + (here + Walk(fetch, p + 1, left - 1).yielded);
        }
    }
  }

  /** The generator's loop, consuming it for at most `requests` pages. */
  method GetRecentTracks(fetch: int -> Fetched, pageStart: int, requests: nat)
    returns (yielded: seq<Api.Parsed<Api.Value>>, end: End)
    ensures Stream(yielded, end) == Walk(fetch, pageStart, requests)
  {
    yielded := [];
    var page := pageStart;
    var left := requests;
    WalkFromIsWalk(fetch, pageStart, requests, []);
    assert [] + Walk(fetch, pageStart, requests).yielded == Walk(fetch, pageStart, requests).yielded;
    while left > 0
      invariant WalkFrom(fetch, page, left, yielded) == Walk(fetch, pageStart, requests)
      decreases left
    {
      var res := fetch(page);
      if res.PageError? {
        end := Raised(res.err);
        return;
      }
      if res.PageRaised? {
        end := Crashed;
        return;
      }
      var here := PageScrobbles(res.track);
      yielded := yielded + here;
      if res.page == res.totalPages {
        end := Exhausted;
        return;
      }
      page := res.page + 1;
      left := left - 1;
    }
    end := Pending(page);
  }

  /** The scrobbles of consecutive pages, in page order. */
  function AllScrobbles(pages: seq<seq<Api.Parsed<Api.Value>>>): seq<Api.Parsed<Api.Value>>
  {
    if |pages| == 0 then [] else PageScrobbles(pages[0]) + AllScrobbles(pages[1..])
  }

  /** When the pages from `start` to the last one come back in order, the
      generator yields all of their scrobbles, page after page, and
      returns. */
  lemma {:induction false} ConsecutivePages(fetch: int -> Fetched, start: int, pages: seq<seq<Api.Parsed<Api.Value>>>)
    requires |pages| >= 1
    requires forall i :: 0 <= i < |pages| ==> fetch(start + i) == Page(start + i, start + |pages| - 1, pages[i])
    ensures Walk(fetch, start, |pages|) == Stream(AllScrobbles(pages), Exhausted)
    decreases |pages|
  {
    if |pages| > 1 {
      forall i | 0 <= i < |pages[1..]|
        ensures fetch(start + 1 + i) == Page(start + 1 + i, start + 1 + |pages[1..]| - 1, pages[1..][i])
      {
        assert fetch(start + (i + 1)) == Page(start + (i + 1), start + |pages| - 1, pages[i + 1]);
      }
      ConsecutivePages(fetch, start + 1, pages[1..]);
      assert fetch(start + 0) == Page(start, start + |pages| - 1, pages[0]);
    } else {
      assert fetch(start + 0) == Page(start, start, pages[0]);
      assert AllScrobbles(pages[1..]) == [];
    }
  }

  /** Consuming more of the generator only extends what it yielded, and a
      generator that has ended yields nothing more. */
  lemma {:induction false} MoreRequestsExtend(fetch: int -> Fetched, page: int, n: nat, m: nat)
    requires n <= m
    ensures Walk(fetch, page, n).yielded <= Walk(fetch, page, m).yielded
    ensures !Walk(fetch, page, n).end.Pending? ==> Walk(fetch, page, n) == Walk(fetch, page, m)
    decreases n
  {
    if n > 0 {
      match fetch(page)
      case PageError(e) =>
      case PageRaised =>
      case Page(p, total, track) =>
        if p != total {
          MoreRequestsExtend(fetch, p + 1, n - 1, m - 1);
        }
    }
  }

  /** An error response is raised before anything of its page is yielded. */
  lemma FirstPageError(fetch: int -> Fetched, start: int, requests: nat)
    requires requests > 0 && fetch(start).PageError?
    ensures Walk(fetch, start, requests) == Stream([], Raised(fetch(start).err))
  {
  }

  /** The page response the generator reads for a `recenttracks` value
      `content`, with its `page` and `total_pages` attributes reading as
      `page` and `total`. */
  function ReadPage(page: int, total: int, content: Api.Json): (r: Fetched)
    // the generator stops with an exception exactly when the content gives no track list
    ensures r.PageRaised? <==> Api.PageTracks(content).Raised?
    // otherwise the track list is the parsed `track` field of the content
    ensures r.Page? ==>
      && r.page == page && r.totalPages == total
      && "track" in content.entries
      && Api.ContentField("track", content.entries["track"]) == Api.Returned(Text.Some(Api.NestedList(r.track)))
  {
    match Api.PageTracks(content)
    case Raised => PageRaised
    case Returned(track) => Page(page, total, track)
  }

  /** A response that cannot be read ends the generator with its exception,
      and nothing of that page is yielded: after a page that is not the
      last, exactly that page's scrobbles have been yielded. */
  lemma UnreadablePageEnds(fetch: int -> Fetched, start: int, requests: nat)
    requires requests >= 2 && fetch(start).Page? && fetch(start).page != fetch(start).totalPages
    requires fetch(fetch(start).page + 1).PageRaised?
    ensures Walk(fetch, start, requests) == Stream(PageScrobbles(fetch(start).track), Crashed)
  {
    assert Walk(fetch, fetch(start).page + 1, requests - 1) == Stream([], Crashed);
    assert PageScrobbles(fetch(start).track) + [] == PageScrobbles(fetch(start).track);
  }

  /** An empty `recenttracks` object parses to the content model's error
      value, which is not raised as an API error: reading its `track` raises
      instead, and the generator ends with nothing yielded. */
  lemma EmptyContentCrashes(fetch: int -> Fetched, start: int, requests: nat, page: int, total: int)
    requires requests > 0 && fetch(start) == ReadPage(page, total, Api.JDict(map[]))
    ensures Walk(fetch, start, requests) == Stream([], Crashed)
  {
    Api.EmptyContentRaises();
  }

  /** A `null` element in a page's track list makes both parses raise, and
      the exception ends the generator with nothing of that page yielded. */
  lemma NullTrackCrashes(fetch: int -> Fetched, start: int, requests: nat, page: int, total: int)
    requires requests > 0 && fetch(start) == ReadPage(page, total, Api.JDict(map["track" := Api.JList([Api.JNull])]))
    ensures Walk(fetch, start, requests) == Stream([], Crashed)
  {
    Api.NullTrackRaises();
  }

  /** Started past the last page, against an API that keeps answering with
      pages that report their own number, the generator never returns: the
      loop stops only on a page equal to the total. */
  lemma {:induction false} PastLastPageNeverEnds(fetch: int -> Fetched, start: int, total: int, requests: nat)
    requires start > total
    requires forall k :: k >= start ==> fetch(k).Page? && fetch(k).page == k && fetch(k).totalPages == total
    ensures Walk(fetch, start, requests).end == Pending(start + requests)
    decreases requests
  {
    if requests > 0 {
      assert fetch(start).page == start;
      PastLastPageNeverEnds(fetch, start + 1, total, requests - 1);
    }
  }

  /** A now-playing entry of a page is never yielded: its scrobble parse is
      an error value, not a ScrobbleModel. */
  lemma NowPlayingNotYielded(entry: map<string, Api.Json>)
    requires "date" !in entry
    requires !("error" in entry && "message" in entry)
    ensures Api.ParseEntry(Api.JDict(entry)).Returned? && !Api.IsScrobbleModel(Api.ParseEntry(Api.JDict(entry)).value)
  {
    Api.NowPlayingEntryIsError(entry);
  }

  /** A scrobble whose date cannot be read is lost: it parses as a plain
      track, and no page that holds it yields it. */
  lemma UnreadableDateNotYielded(s: Api.Scrobble, uts: string)
    requires Text.ParseInt(uts).None?
    ensures Api.ParseEntry(Api.JDict(Api.UnreadableDateJson(s, uts))).Returned?
    ensures forall track :: Api.ParseEntry(Api.JDict(Api.UnreadableDateJson(s, uts))).value !in PageScrobbles(track)
  {
    Api.UnreadableDateBecomesTrack(s, uts);
  }
}
