/** The track matcher of src/navidrome_fm/db.py, `match_lastfm_tracks_for`
    with its helpers `trim_feature`, `matcher_for`, `min_match_ratio` and
    `enough_overlap`: given one Navidrome track, find the last.fm tracks
    that are the same recording, first by MusicBrainz id, then by exact
    metadata, then by fuzzy similarity with an optional question to the
    operator. */
module Matcher {
  import opened Text
  import opened Seqs
  import opened Ranking
  import opened Store
  import Gestalt

  datatype MatchStatus = Match | NoMatch | ChoiceRequired

  /** `min_ratio_all`, `min_ratio_each` and `min_overlap`. */
  datatype Thresholds = Thresholds(minRatioAll: real, minRatioEach: real, minOverlap: real)

  /** The default thresholds of the signature. */
  const Defaults := Thresholds(0.9, 0.7, 5.0)

  // ---------------------------------------------------------------------------
  // trim_feature

  /** The length of the first line of `t`. */
  function LineEnd(t: string): (n: nat)
    ensures n <= |t|
    ensures '\n' !in t[..n]
    ensures n < |t| ==> t[n] == '\n'
  {
    if |t| == 0 || t[0] == '\n' then 0
    else
      var n := 1 + LineEnd(t[1..]);
      assert t[..n] == [t[0]] + t[1..][..n - 1];
      n
  }

  /** `re.sub(r"^(.*)<marker>.*$", r"\1", t)`. The dot does not match a line
      break, so a match lies within the first line, and it must reach `$`:
      the end of `t` or a final line break. The greedy group then keeps
      everything before the last occurrence of the marker in that line. */
  function CutAtLast(t: string, marker: string): (r: string)
    ensures |r| <= |t|
    // on one line: the text before the last occurrence of the marker
    ensures '\n' !in t ==> r <= t
    ensures '\n' !in t && Contains(t, marker) ==>
      OccursAt(t, marker, |r|) && forall q :: |r| < q ==> !OccursAt(t, marker, q)
    ensures '\n' !in t && !Contains(t, marker) ==> r == t
    // a line break before the last character leaves the text alone
    ensures (exists i :: 0 <= i < |t| - 1 && t[i] == '\n') ==> r == t
  {
    var n := LineEnd(t);
    assert forall i :: 0 <= i < n ==> t[i] == t[..n][i];
    if n == |t| then
      assert t[..n] == t;
      match LastOccurrence(t, marker)
      case None => t
      case Some(p) => t[..p]
    else if n < |t| - 1 then
      t
    else
      match LastOccurrence(t[..n], marker)
      case None => t
      case Some(p) => t[..n][..p] + "\n"
  }

  /** A final line break is kept and the line before it is cut as usual. */
  lemma CutKeepsFinalBreak(u: string, marker: string)
    requires '\n' !in u
    ensures CutAtLast(u + "\n", marker) == CutAtLast(u, marker) + "\n"
  {
    var t := u + "\n";
    var n := LineEnd(t);
    assert forall i :: 0 <= i < |u| ==> t[i] == u[i];
    assert t[|u|] == '\n';
    assert n == |u|;
    assert t[..|u|] == u;
  }

  /** `trim_feature`: cut at the last "feat. ", then at the last "ft. ". */
  function TrimFeature(t: string): (r: string)
    ensures |r| <= |t|
    ensures '\n' !in t ==> r <= t
  {
    CutAtLast(CutAtLast(t, "feat. "), "ft. ")
  }

  /** A one-line title is left alone exactly when it names no featured
      artist. */
  lemma TrimFeatureUnchanged(t: string)
    requires '\n' !in t
    ensures TrimFeature(t) == t <==> !Contains(t, "feat. ") && !Contains(t, "ft. ")
  {
    var r1 := CutAtLast(t, "feat. ");
    assert '\n' !in r1 by {
      assert r1 <= t;
      forall i | 0 <= i < |r1| ensures r1[i] != '\n' {
        assert r1[i] == t[i];
      }
    }
    if Contains(t, "feat. ") {
      assert |r1| < |t| by {
        assert OccursAt(t, "feat. ", |r1|);
      }
    } else {
      assert r1 == t;
      if Contains(t, "ft. ") {
        assert OccursAt(t, "ft. ", |CutAtLast(t, "ft. ")|);
      }
    }
  }

  /** On one line, the cut falls at an occurrence with none after it. */
  lemma CutAt(t: string, marker: string, p: nat)
    requires '\n' !in t
    requires OccursAt(t, marker, p)
    requires forall q :: p < q <= |t| - |marker| ==> !OccursAt(t, marker, q)
    ensures CutAtLast(t, marker) == t[..p]
  {
    var r := CutAtLast(t, marker);
    assert OccursAt(t, marker, |r|);
  }

  /** On one line with no "ft" pair before it, trimming cuts at the last
      "feat. ". */
  lemma TrimAtFeat(t: string, p: nat)
    requires '\n' !in t
    requires OccursAt(t, "feat. ", p)
    requires forall q :: p < q <= |t| - 6 ==> !OccursAt(t, "feat. ", q)
    requires forall q :: 0 <= q < p - 1 ==> !(t[q] == 'f' && t[q + 1] == 't')
    ensures TrimFeature(t) == t[..p]
  {
    CutAt(t, "feat. ", p);
    NoFt(t[..p]);
  }

  /** No 'f' and no line break: a stretch of text that cannot hold a
      marker. */
  ghost predicate Plain(s: string)
  {
    forall i :: 0 <= i < |s| ==> s[i] != 'f' && s[i] != '\n'
  }

  /** No "ft" pair. */
  ghost predicate NoFtPair(s: string)
  {
    forall q :: 0 <= q < |s| - 1 ==> !(s[q] == 'f' && s[q + 1] == 't')
  }

  /** A one-line text with no "ft" pair, then "feat. " and a plain tail,
      trims back to the text. */
  lemma TrimBeforeFeat(u: string, c: string)
    requires '\n' !in u && NoFtPair(u) && Plain(c)
    ensures TrimFeature(u + "feat. " + c) == u
  {
    var t := u + "feat. " + c;
    var p := |u|;
    assert forall i :: 0 <= i < p ==> t[i] == u[i];
    assert forall i :: 0 <= i < 6 ==> t[p + i] == "feat. "[i];
    assert forall i :: 0 <= i < |c| ==> t[p + 6 + i] == c[i];
    assert '\n' !in t by {
      forall i | 0 <= i < |t| ensures t[i] != '\n' {
        if i >= p + 6 {
          assert t[i] == c[i - p - 6];
        }
      }
    }
    assert t[p..p + 6] == "feat. ";
    forall q | p < q <= |t| - 6 ensures !OccursAt(t, "feat. ", q) {
      assert t[q..q + 6][0] == t[q];
      if q >= p + 6 {
        assert t[q] == c[q - p - 6];
      }
    }
    assert t[..p] == u;
    TrimAtFeat(t, p);
  }

  /** A featured artist after the title is dropped. */
  lemma TrimDropsFeature(a: string, b: string)
    requires Plain(a) && Plain(b)
    ensures TrimFeature(a + "feat. " + b) == a
  {
    TrimBeforeFeat(a, b);
  }

  /** Only the last "feat. " is cut, so trimming is not idempotent: a title
      naming two featured artists loses one per trim. */
  lemma TrimFeatureNotIdempotent(a: string, b: string, c: string)
    requires Plain(a) && Plain(b) && Plain(c)
    ensures TrimFeature(a + "feat. " + b + "feat. " + c) == a + "feat. " + b
    ensures TrimFeature(TrimFeature(a + "feat. " + b + "feat. " + c)) == a
  {
    var u := a + "feat. " + b;
    assert '\n' !in u && NoFtPair(u) by {
      forall i | 0 <= i < |u| ensures u[i] != '\n' && (u[i] == 'f' ==> i == |a| && u[i + 1] == 'e') {
        if i < |a| {
          assert u[i] == a[i];
        } else if i >= |a| + 6 {
          assert u[i] == b[i - |a| - 6];
        }
      }
    }
    TrimBeforeFeat(u, c);
    TrimBeforeFeat(a, b);
  }

  lemma NoFt(r: string)
    requires '\n' !in r
    requires forall q :: 0 <= q < |r| - 1 ==> !(r[q] == 'f' && r[q + 1] == 't')
    ensures CutAtLast(r, "ft. ") == r
  {
    forall q | 0 <= q && q + 4 <= |r| ensures !OccursAt(r, "ft. ", q) {
      assert r[q..q + 4][0] == r[q] && r[q..q + 4][1] == r[q + 1];
    }
  }

  // ---------------------------------------------------------------------------
  // The three field criteria and the aggregate ratio

  /** `album or ""`. */
  function AlbumText(album: Option<string>): string
  {
    if album.Some? then album.value else ""
  }

  /** The three compared fields of a track: trimmed title, trimmed artist,
      album. */
  function NavFields(t: NavidromeTrack): seq<string>
  {
    [TrimFeature(t.title), TrimFeature(t.artist), AlbumText(t.album)]
  }

  function LastFMFields(t: LastFMTrack): seq<string>
  {
    [TrimFeature(t.title), TrimFeature(t.artist), AlbumText(t.album)]
  }

  /** `SequenceMatcher(None, a.lower(), b.lower()).ratio()`. */
  function FieldRatio(a: string, b: string): (r: real)
    ensures 0.0 <= r <= 1.0
  {
    Gestalt.Ratio(Lower(a), Lower(b))
  }

  /** Strings equal up to case have ratio 1. */
  lemma FieldRatioSame(a: string, b: string)
    requires Lower(a) == Lower(b)
    ensures FieldRatio(a, b) == 1.0
  {
    Gestalt.RatioSelf(Lower(a));
  }

  /** The three field ratios, in field order. */
  function FieldRatios(a: seq<string>, b: seq<string>): (r: seq<real>)
    requires |a| == |b|
    ensures |r| == |a|
    ensures forall i :: 0 <= i < |a| ==> r[i] == FieldRatio(a[i], b[i])
  {
    if |a| == 0 then [] else [FieldRatio(a[0], b[0])] + FieldRatios(a[1..], b[1..])
  }

  /** `min_match_ratio`: the lowest of the three field ratios. */
  function MinMatchRatio(nav: NavidromeTrack, lf: LastFMTrack): (r: real)
    ensures forall i :: 0 <= i < 3 ==> r <= FieldRatio(NavFields(nav)[i], LastFMFields(lf)[i])
    ensures exists i :: 0 <= i < 3 && r == FieldRatio(NavFields(nav)[i], LastFMFields(lf)[i])
  {
    Least3(FieldRatios(NavFields(nav), LastFMFields(lf)))
  }

  function Least3(f: seq<real>): (r: real)
    requires |f| == 3
    ensures forall i :: 0 <= i < 3 ==> r <= f[i]
    ensures exists i :: 0 <= i < 3 && r == f[i]
  {
    if f[0] <= f[1] && f[0] <= f[2] then f[0] else if f[1] <= f[2] then f[1] else f[2]
  }

  /** The overlap a pair of fields needs: `min(len(a), len(b), min_overlap)`. */
  function Need(a: string, b: string, minOverlap: real): real
  {
    var need := if |a| <= |b| then |a| as real else |b| as real;
    if minOverlap < need then minOverlap else need
  }

  /** The two fields, lower-cased, have a common run of at least `n`
      characters somewhere. */
  ghost predicate SharesRun(a: string, b: string, n: real)
  {
    exists i, j, k :: Gestalt.IsBlock(Lower(a), Lower(b), i, j, k) && k as real >= n
  }

  /** One field of `enough_overlap`: the block `find_longest_match()` finds
      is long enough exactly when some common run is, since no common run
      is longer than that block. */
  function Overlaps(a: string, b: string, minOverlap: real): (r: bool)
    ensures r <==> SharesRun(a, b, Need(a, b, minOverlap))
  {
    var n := Gestalt.LongestMatchSize(Lower(a), Lower(b));
    Gestalt.LongestMatchIsLongest(Lower(a), Lower(b));
    n as real >= Need(a, b, minOverlap)
  }

  /** `enough_overlap`: every pair (trimmed titles, trimmed artists, album
      texts) shares a common run as long as the shorter field or
      `minOverlap` characters. */
  function EnoughOverlap(nav: NavidromeTrack, lf: LastFMTrack, minOverlap: real): (r: bool)
    ensures r <==> forall i :: 0 <= i < 3 ==>
      SharesRun(NavFields(nav)[i], LastFMFields(lf)[i], Need(NavFields(nav)[i], LastFMFields(lf)[i], minOverlap))
  {
    forall i :: 0 <= i < 3 ==> Overlaps(NavFields(nav)[i], LastFMFields(lf)[i], minOverlap)
  }

  /** The string `matcher_for` compares: trimmed title, trimmed artist and
      album run together, lower-cased. */
  function NavKey(t: NavidromeTrack): string
  {
    Lower(TrimFeature(t.title) + TrimFeature(t.artist) + AlbumText(t.album))
  }

  function LastFMKey(t: LastFMTrack): string
  {
    Lower(TrimFeature(t.title) + TrimFeature(t.artist) + AlbumText(t.album))
  }

  /** `matcher_for(nav, lf).ratio()`. */
  function AggregateRatio(nav: NavidromeTrack, lf: LastFMTrack): (r: real)
    ensures 0.0 <= r <= 1.0
  {
    Gestalt.Ratio(NavKey(nav), LastFMKey(lf))
  }

  /** Tracks whose compared strings coincide have ratio 1. */
  lemma AggregateRatioSame(nav: NavidromeTrack, lf: LastFMTrack)
    requires NavKey(nav) == LastFMKey(lf)
    ensures AggregateRatio(nav, lf) == 1.0
  {
    Gestalt.RatioSelf(NavKey(nav));
  }

  // ---------------------------------------------------------------------------
  // The three lookups

  /** SQL `column = ?`: NULL on either side never compares equal. */
  predicate SqlEq(column: Option<string>, param: Option<string>)
  {
    column.Some? && param.Some? && column.value == param.value
  }

  /** SQL `column = ? COLLATE NOCASE`. */
  predicate SqlEqNoCase(column: Option<string>, param: Option<string>)
  {
    column.Some? && param.Some? && Lower(column.value) == Lower(param.value)
  }

  /** The first query: tracks with the Navidrome track's MusicBrainz id. */
  function MbidMatches(db: ScrobbleDb, nav: NavidromeTrack): (r: seq<LastFMTrack>)
    ensures forall t :: t in r <==> t in db.tracks && t.mbid.Some? && t.mbid == nav.mbzRecordingId
  {
    Filter((t: LastFMTrack) => SqlEq(t.mbid, nav.mbzRecordingId), db.tracks)
  }

  /** The second query: title and artist equal as written, album equal
      ignoring ASCII case; the collation applies to the album comparison
      only. */
  function ExactMatches(db: ScrobbleDb, nav: NavidromeTrack): (r: seq<LastFMTrack>)
    ensures forall t :: t in r <==>
      t in db.tracks && t.title == nav.title && t.artist == nav.artist
      && t.album.Some? && nav.album.Some? && Lower(t.album.value) == Lower(nav.album.value)
  {
    Filter((t: LastFMTrack) => t.title == nav.title && t.artist == nav.artist && SqlEqNoCase(t.album, nav.album), db.tracks)
  }

  /** The fuzzy candidates' `WHERE title=? OR artist=? OR album=?`. */
  predicate SharesField(nav: NavidromeTrack, t: LastFMTrack)
  {
    t.title == nav.title || t.artist == nav.artist || SqlEq(t.album, nav.album)
  }

  function SharesFieldOf(nav: NavidromeTrack): LastFMTrack -> bool
  {
    (t: LastFMTrack) => SharesField(nav, t)
  }

  /** A candidate as the comprehension rebuilds it: `album or None` and no
      MusicBrainz id. */
  function AsCandidate(t: LastFMTrack): (c: LastFMTrack)
    ensures c.id == t.id && c.title == t.title && c.artist == t.artist
    ensures AlbumText(c.album) == AlbumText(t.album) && c.album != Some("")
    ensures c.mbid.None?
  {
    LastFMTrack(t.id, t.title, t.artist, if t.album == Some("") then None else t.album, None)
  }

  /** The fuzzy candidates, in table order. */
  function Candidates(db: ScrobbleDb, nav: NavidromeTrack): (r: seq<LastFMTrack>)
    ensures forall c :: c in r ==> exists t :: t in db.tracks && SharesField(nav, t) && c == AsCandidate(t)
    ensures forall t :: t in db.tracks && SharesField(nav, t) ==> AsCandidate(t) in r
  {
    var shared := Filter(SharesFieldOf(nav), db.tracks);
    var r := Map(AsCandidate, shared);
    forall t | t in db.tracks && SharesField(nav, t) ensures AsCandidate(t) in r {
      var i :| 0 <= i < |shared| && shared[i] == t;
      assert r[i] == AsCandidate(t);
    }
    r
  }

  // ---------------------------------------------------------------------------
  // Ranking and filtering

  function Score(nav: NavidromeTrack, c: LastFMTrack): Scored<LastFMTrack>
  {
    Scored(c, AggregateRatio(nav, c))
  }

  /** The candidates paired with their aggregate ratio (`zip(matches, ratios)`). */
  function Scoring(nav: NavidromeTrack, cs: seq<LastFMTrack>): (r: seq<Scored<LastFMTrack>>)
    ensures |r| == |cs|
    ensures forall i :: 0 <= i < |cs| ==> r[i] == Score(nav, cs[i])
  {
    Map((c: LastFMTrack) => Score(nav, c), cs)
  }

  /** The candidates by descending ratio, ties in table order. */
  function Ranked(db: ScrobbleDb, nav: NavidromeTrack): (r: seq<Scored<LastFMTrack>>)
    ensures SortedDesc(r)
    ensures multiset(r) == multiset(Scoring(nav, Candidates(db, nav)))
  {
    SortDesc(Scoring(nav, Candidates(db, nav)))
  }

  /** The per-candidate conditions of the second comprehension. */
  predicate PassesFloors(db: ScrobbleDb, nav: NavidromeTrack, th: Thresholds, c: LastFMTrack)
  {
    MinMatchRatio(nav, c) > th.minRatioEach && EnoughOverlap(nav, c, th.minOverlap) && !IsBlacklisted(db, nav, c)
  }

  function Floors(db: ScrobbleDb, nav: NavidromeTrack, th: Thresholds): Scored<LastFMTrack> -> bool
  {
    (x: Scored<LastFMTrack>) => PassesFloors(db, nav, th, x.item)
  }

  /** The ranked candidates that pass every field floor and are not
      blacklisted for this track. */
  function Survivors(db: ScrobbleDb, nav: NavidromeTrack, th: Thresholds): (r: seq<Scored<LastFMTrack>>)
    ensures forall x :: x in r <==> x in Ranked(db, nav) && PassesFloors(db, nav, th, x.item)
  {
    Filter(Floors(db, nav, th), Ranked(db, nav))
  }

  function AboveAll(th: Thresholds): Scored<LastFMTrack> -> bool
  {
    (x: Scored<LastFMTrack>) => x.score > th.minRatioAll
  }

  /** The survivors accepted without asking. */
  function Acceptable(survivors: seq<Scored<LastFMTrack>>, th: Thresholds): (r: seq<Scored<LastFMTrack>>)
    ensures forall x :: x in r <==> x in survivors && x.score > th.minRatioAll
  {
    Filter(AboveAll(th), survivors)
  }

  function Items(s: seq<Scored<LastFMTrack>>): (r: seq<LastFMTrack>)
    ensures |r| == |s|
    ensures forall i :: 0 <= i < |s| ==> r[i] == s[i].item
  {
    Map((x: Scored<LastFMTrack>) => x.item, s)
  }

  // ---------------------------------------------------------------------------
  // The operator's answer

  /** Python exceptions the matcher lets escape. */
  datatype Fault = NotAnInteger | IndexOutOfRange | Integrity(err: IntegrityError)

  datatype Choice = Skip | Accept(picks: seq<LastFMTrack>) | RejectAll | Bad(fault: Fault)

  /** `[int(v) for v in pieces]`; None where some `int()` raises. */
  function ParseAll(pieces: seq<string>): (r: Option<seq<int>>)
    ensures r.Some? <==> forall i :: 0 <= i < |pieces| ==> ParseInt(pieces[i]).Some?
    ensures r.Some? ==> |r.value| == |pieces| && forall i :: 0 <= i < |pieces| ==> ParseInt(pieces[i]) == Some(r.value[i])
  {
    if |pieces| == 0 then Some([])
    else
      match (ParseInt(pieces[0]), ParseAll(pieces[1..]))
      case (Some(c), Some(cs)) =>
        assert forall i :: 0 < i < |pieces| ==> pieces[i] == pieces[1..][i - 1];
        Some([c] + cs)
      case (_, _) =>
        None
  }

  /** `[int(v) for v in reply.split(",")]`. */
  function ParseChoices(reply: string): Option<seq<int>>
  {
    ParseAll(Split(reply, ','))
  }

  lemma NoCommaInNumber(n: int)
    ensures ',' !in IntToString(n)
  {
    var r := IntToString(n);
    forall i | 0 <= i < |r| ensures r[i] != ',' {
      if n < 0 && i > 0 {
        assert r[i] == r[1..][i - 1];
      }
    }
  }

  /** Numbers typed with commas between them are read back as typed. */
  lemma ParseChoicesRoundTrip(cs: seq<int>)
    requires |cs| >= 1
    ensures ParseChoices(Join(Map(IntToString, cs), ',')) == Some(cs)
  {
    var parts := Map(IntToString, cs);
    forall i | 0 <= i < |parts| ensures ',' !in parts[i] {
      NoCommaInNumber(cs[i]);
    }
    SplitJoin(parts, ',');
    ParseRendered(cs);
  }

  lemma ParseRendered(cs: seq<int>)
    ensures ParseAll(Map(IntToString, cs)) == Some(cs)
  {
    var parts := Map(IntToString, cs);
    forall i | 0 <= i < |parts| ensures ParseInt(parts[i]) == Some(cs[i]) {
      IntToStringRoundTrip(cs[i]);
    }
    var r := ParseAll(parts).value;
    assert |r| == |cs|;
    forall i | 0 <= i < |cs| ensures r[i] == cs[i] {
      assert ParseInt(parts[i]) == Some(r[i]);
    }
    assert r == cs;
  }

  /** Python's `s[k]`: negative indices count from the end. */
  function PyIndex<T>(s: seq<T>, k: int): (r: Option<T>)
    ensures r.Some? <==> -|s| <= k < |s|
    ensures r.Some? ==> r.value == s[k % |s|]
  {
    if 0 <= k < |s| then Some(s[k])
    else if -|s| <= k < 0 then Some(s[|s| + k])
    else None
  }

  /** `[s[c - 1] for c in cs]`; None where an index is out of range. */
  function PickAll<T>(s: seq<T>, cs: seq<int>): (r: Option<seq<T>>)
    ensures r.Some? <==> forall i :: 0 <= i < |cs| ==> -|s| <= cs[i] - 1 < |s|
    ensures r.Some? ==> |r.value| == |cs|
    ensures r.Some? ==> forall i :: 0 <= i < |cs| ==> |s| > 0 && r.value[i] == s[(cs[i] - 1) % |s|]
  {
    if |cs| == 0 then Some([])
    else
      match (PyIndex(s, cs[0] - 1), PickAll(s, cs[1..]))
      case (Some(x), Some(xs)) =>
        assert forall i :: 0 < i < |cs| ==> cs[i] == cs[1..][i - 1];
        Some([x] + xs)
      case (_, _) =>
        None
  }

  /** The operator's choice is taken when some number is positive and none
      exceeds the number of candidates. */
  predicate Takes(cs: seq<int>, n: int)
  {
    (exists i :: 0 <= i < |cs| && cs[i] > 0) && forall i :: 0 <= i < |cs| ==> cs[i] <= n
  }

  /** The prompt: an empty answer skips; otherwise comma-separated integers,
      where a valid choice picks candidates by their 1-based number (`0` and
      negative numbers count from the end as Python indices do) and any other
      answer rejects them all. */
  function Choose(survivors: seq<LastFMTrack>, reply: string): (r: Choice)
    ensures r.Skip? <==> reply == ""
    ensures r == Bad(NotAnInteger) <==> reply != "" && ParseChoices(reply).None?
    ensures r.RejectAll? <==> reply != "" && ParseChoices(reply).Some? && !Takes(ParseChoices(reply).value, |survivors|)
    ensures r.Accept? || r == Bad(IndexOutOfRange) ==>
      reply != "" && ParseChoices(reply).Some? && Takes(ParseChoices(reply).value, |survivors|)
    ensures r == Bad(IndexOutOfRange) <==> (reply != "" && ParseChoices(reply).Some?
      && Takes(ParseChoices(reply).value, |survivors|)
      && exists i :: 0 <= i < |ParseChoices(reply).value| && ParseChoices(reply).value[i] < 1 - |survivors|)
    ensures r.Accept? ==> var cs := ParseChoices(reply).value;
      |r.picks| == |cs| && forall i :: 0 <= i < |cs| ==> r.picks[i] == survivors[(cs[i] - 1) % |survivors|]
    ensures r.Bad? ==> !r.fault.Integrity?
  {
    if reply == "" then Skip
    else match ParseChoices(reply)
      case None => Bad(NotAnInteger)
      case Some(cs) =>
        if Takes(cs, |survivors|) then
          match PickAll(survivors, cs)
          case None => Bad(IndexOutOfRange)
          case Some(picks) => Accept(picks)
        else RejectAll
  }

  /** Typing "1,0" takes the first and the last candidate: `0 - 1` is the
      index of the last element. */
  lemma OneZeroTakesFirstAndLast(s: seq<LastFMTrack>)
    requires |s| >= 1
    ensures Choose(s, "1,0") == Accept([s[0], s[|s| - 1]])
  {
    ReadOneZero();
    assert Takes([1, 0], |s|) by {
      assert [1, 0][0] > 0;
    }
    PickFirstLast(s);
  }

  lemma PickFirstLast(s: seq<LastFMTrack>)
    requires |s| >= 1
    ensures PickAll(s, [1, 0]) == Some([s[0], s[|s| - 1]])
  {
    PickFirst(s);
    PickLast(s);
    var r := PickAll(s, [1, 0]).value;
    assert r == [r[0], r[1]];
  }

  lemma PickFirst(s: seq<LastFMTrack>)
    requires |s| >= 1
    ensures PickAll(s, [1, 0]).Some? && |PickAll(s, [1, 0]).value| == 2
    ensures PickAll(s, [1, 0]).value[0] == s[0]
  {
    EndsModulo(|s|);
  }

  lemma PickLast(s: seq<LastFMTrack>)
    requires |s| >= 1
    ensures PickAll(s, [1, 0]).Some? ==> |PickAll(s, [1, 0]).value| == 2 && PickAll(s, [1, 0]).value[1] == s[|s| - 1]
  {
    EndsModulo(|s|);
  }

  /** Python index 0 is the first element and -1 the last. */
  lemma EndsModulo(n: int)
    requires n > 0
    ensures 0 % n == 0 && (0 - 1) % n == n - 1
  {
  }

  lemma ReadOneZero()
    ensures ParseChoices("1,0") == Some([1, 0])
  {
    SplitAfterPiece("1", "0", ',');
    SplitNoSeparator("0", ',');
    assert Split("1,0", ',') == ["1", "0"] by {
      assert "1,0" == "1" + [','] + "0";
    }
    ReadSmall();
    ParseRendered([1, 0]);
    assert Map(IntToString, [1, 0]) == ["1", "0"];
  }

  /** Typing "0" alone rejects every candidate. */
  lemma ZeroRejectsAll(s: seq<LastFMTrack>)
    ensures Choose(s, "0") == RejectAll
  {
    SplitNoSeparator("0", ',');
    ReadSmall();
    ParseRendered([0]);
    assert Map(IntToString, [0]) == ["0"];
  }

  lemma ReadSmall()
    ensures IntToString(0) == "0" && IntToString(1) == "1"
  {
  }

  // ---------------------------------------------------------------------------
  // Rejecting every candidate

  function IdOf(t: LastFMTrack): string
  {
    t.id
  }

  /** `blacklist_match` for each candidate in turn; the first failing
      `INSERT` raises. */
  function BlacklistAll(db: ScrobbleDb, nav: NavidromeTrack, items: seq<LastFMTrack>): (r: Written)
    ensures r.Written? ==> r.db == db.(blacklist := db.blacklist + set t | t in items :: Link(t.id, nav.id))
    decreases |items|
  {
    if |items| == 0 then Written(db)
    else
      match BlacklistMatch(db, nav, items[0])
      case Rejected(e) => Rejected(e)
      case Written(db1) =>
        var r := BlacklistAll(db1, nav, items[1..]);
        assert (set t | t in items :: Link(t.id, nav.id))
            == {Link(items[0].id, nav.id)} + set t | t in items[1..] :: Link(t.id, nav.id) by {
          assert forall t :: t in items <==> t == items[0] || t in items[1..];
        }
        r
  }

  /** The inserts all succeed when the candidates have distinct ids, are in
      the track table and are not yet blacklisted. */
  lemma {:induction false} BlacklistAllSucceeds(db: ScrobbleDb, nav: NavidromeTrack, items: seq<LastFMTrack>)
    requires DistinctKeys(IdOf, items)
    requires forall t :: t in items ==> t.id in TrackIds(db) && !IsBlacklisted(db, nav, t)
    ensures BlacklistAll(db, nav, items).Written?
    decreases |items|
  {
    if |items| > 0 {
      var db1 := BlacklistMatch(db, nav, items[0]).db;
      forall t | t in items[1..] ensures t.id in TrackIds(db1) && !IsBlacklisted(db1, nav, t) {
        var k :| 0 <= k < |items[1..]| && items[1..][k] == t;
        assert items[k + 1] == t;
        assert t.id != items[0].id;
      }
      assert DistinctKeys(IdOf, items[1..]) by {
        forall i, j | 0 <= i < j < |items[1..]| ensures items[1..][i].id != items[1..][j].id {
          assert items[1..][i] == items[i + 1] && items[1..][j] == items[j + 1];
        }
      }
      BlacklistAllSucceeds(db1, nav, items[1..]);
    }
  }

  // ---------------------------------------------------------------------------
  // match_lastfm_tracks_for

  /** The outcome: a status, the matched tracks and the database afterwards,
      or an exception. */
  datatype Decision = Decided(status: MatchStatus, tracks: seq<LastFMTrack>, db: ScrobbleDb) | Raised(fault: Fault)

  /** Every element of `sub` is an element of `s`. */
  lemma ItemsSubset(sub: seq<Scored<LastFMTrack>>, s: seq<Scored<LastFMTrack>>)
    requires forall x :: x in sub ==> x in s
    ensures forall t :: t in Items(sub) ==> t in Items(s)
  {
    forall t | t in Items(sub) ensures t in Items(s) {
      var i :| 0 <= i < |sub| && Items(sub)[i] == t;
      assert sub[i] in s;
      var j :| 0 <= j < |s| && s[j] == sub[i];
      assert Items(s)[j] == t;
    }
  }

  /** The prompt over the surviving candidates, and what the answer does. */
  function Ask(db: ScrobbleDb, nav: NavidromeTrack, survivors: seq<Scored<LastFMTrack>>, reply: string): (r: Decision)
    ensures r.Decided? && r.status == Match ==> |r.tracks| > 0 && forall t :: t in r.tracks ==> t in Items(survivors)
    ensures r.Decided? && r.status != Match ==> r.tracks == []
    ensures r.Decided? && r.status == ChoiceRequired <==> reply == ""
    ensures r.Decided? && r.status == ChoiceRequired ==> r.db == db
    ensures r.Decided? && r.db != db ==> (r.status == NoMatch
      && r.db == db.(blacklist := db.blacklist + set x | x in Items(survivors) :: Link(x.id, nav.id)))
    ensures r.Raised? ==> reply != ""
    ensures r.Raised? && r.fault.Integrity? ==> BlacklistAll(db, nav, Items(survivors)).Rejected?
    // a valid choice returns the chosen candidates, one per typed number, in order
    ensures Choose(Items(survivors), reply).Accept? ==> r == Decided(Match, Choose(Items(survivors), reply).picks, db)
    ensures Choose(Items(survivors), reply).Bad? ==> r == Raised(Choose(Items(survivors), reply).fault)
  {
    match Choose(Items(survivors), reply)
    case Skip => Decided(ChoiceRequired, [], db)
    case Accept(picks) =>
      var cs := ParseChoices(reply).value;
      assert forall t :: t in picks ==> t in Items(survivors) by {
        forall t | t in picks ensures t in Items(survivors) {
          var i :| 0 <= i < |picks| && picks[i] == t;
        }
      }
      assert |picks| > 0 by {
        assert exists i :: 0 <= i < |cs| && cs[i] > 0;
      }
      Decided(Match, picks, db)
    case Bad(f) => Raised(f)
    case RejectAll =>
      match BlacklistAll(db, nav, Items(survivors))
      case Written(db') => Decided(NoMatch, [], db')
      case Rejected(e) => Raised(Integrity(e))
  }

  /** The fuzzy stage, once neither lookup found anything. */
  function Fuzzy(db: ScrobbleDb, nav: NavidromeTrack, interactive: bool, th: Thresholds, reply: string): (r: Decision)
    ensures r.Decided? && r.status == Match ==> |r.tracks| > 0 && forall t :: t in r.tracks ==> t in Items(Survivors(db, nav, th))
    ensures r.Decided? && r.status != Match ==> r.tracks == []
    ensures |Survivors(db, nav, th)| == 0 ==> r == Decided(NoMatch, [], db)
    ensures |Acceptable(Survivors(db, nav, th), th)| > 0 ==>
      r == Decided(Match, Items(Acceptable(Survivors(db, nav, th), th)), db)
    ensures !interactive ==> r.Decided? && r.db == db
    ensures r.Raised? ==> interactive && reply != ""
    ensures r.Raised? && r.fault.Integrity? ==> BlacklistAll(db, nav, Items(Survivors(db, nav, th))).Rejected?
    ensures r.Decided? && r.db != db ==> (r.status == NoMatch
      && r.db == RejectedAll(db, nav, th))
    ensures r.Decided? && r.status == ChoiceRequired ==>
      |Survivors(db, nav, th)| > 0 && |Acceptable(Survivors(db, nav, th), th)| == 0 && (!interactive || reply == "")
    ensures interactive && |Acceptable(Survivors(db, nav, th), th)| == 0 && Choose(Items(Survivors(db, nav, th)), reply).Accept? ==>
      r == Decided(Match, Choose(Items(Survivors(db, nav, th)), reply).picks, db)
  {
    var survivors := Survivors(db, nav, th);
    if |survivors| == 0 then Decided(NoMatch, [], db)
    else
      var acceptable := Acceptable(survivors, th);
      if |acceptable| > 0 then
        ItemsSubset(acceptable, survivors);
        Decided(Match, Items(acceptable), db)
      else if !interactive then Decided(ChoiceRequired, [], db)
      else Ask(db, nav, survivors, reply)
  }

  /** `match_lastfm_tracks_for(nav, interactive, fuzzy, ...)`. `reply` is what
      the operator types when asked. */
  function MatchLastFMTracksFor(db: ScrobbleDb, nav: NavidromeTrack, interactive: bool, fuzzy: bool,
                                th: Thresholds, reply: string): (r: Decision)
    // a MusicBrainz hit is always taken, whole
    ensures |MbidMatches(db, nav)| > 0 ==> (r.Decided? && r.status == Match && r.db == db
      && forall t :: t in r.tracks <==> t in db.tracks && t.mbid.Some? && t.mbid == nav.mbzRecordingId)
    // then an exact metadata hit
    ensures |MbidMatches(db, nav)| == 0 && |ExactMatches(db, nav)| > 0 ==> (r.Decided? && r.status == Match && r.db == db
      && forall t :: t in r.tracks <==> t in ExactMatches(db, nav))
    ensures |MbidMatches(db, nav)| == 0 && |ExactMatches(db, nav)| == 0 && !fuzzy ==> r == Decided(NoMatch, [], db)
    ensures |MbidMatches(db, nav)| == 0 && |ExactMatches(db, nav)| == 0 && |Survivors(db, nav, th)| == 0 ==>
      r == Decided(NoMatch, [], db)
    // a fuzzy match takes exactly the survivors above the overall threshold, best first
    ensures |MbidMatches(db, nav)| == 0 && |ExactMatches(db, nav)| == 0 && fuzzy
            && |Acceptable(Survivors(db, nav, th), th)| > 0 ==>
      r == Decided(Match, Items(Acceptable(Survivors(db, nav, th), th)), db)
    // or else the candidates the operator chose, one per typed number, in order
    ensures |MbidMatches(db, nav)| == 0 && |ExactMatches(db, nav)| == 0 && fuzzy && interactive
            && |Acceptable(Survivors(db, nav, th), th)| == 0 && Choose(Items(Survivors(db, nav, th)), reply).Accept? ==>
      r == Decided(Match, Choose(Items(Survivors(db, nav, th)), reply).picks, db)
    // a fuzzy match returns surviving candidates only
    ensures r.Decided? && r.status == Match && |MbidMatches(db, nav)| == 0 && |ExactMatches(db, nav)| == 0 ==>
      fuzzy && forall t :: t in r.tracks ==> t in Items(Survivors(db, nav, th))
    ensures r.Decided? && r.status != Match ==> r.tracks == []
    ensures r.Decided? && r.status == Match ==> |r.tracks| > 0
    // nothing is written or raised unless the matcher is interactive
    ensures !interactive ==> r.Decided? && r.db == db
    ensures r.Raised? ==> interactive && fuzzy && reply != ""
    // an integrity error means some blacklist insert was refused
    ensures r.Raised? && r.fault.Integrity? ==> BlacklistAll(db, nav, Items(Survivors(db, nav, th))).Rejected?
    // the only write is blacklisting every survivor, after which nothing matched
    ensures r.Decided? && r.db != db ==> (r.status == NoMatch
      && r.db == RejectedAll(db, nav, th))
    ensures r.Decided? && r.status == ChoiceRequired ==>
      fuzzy && |Survivors(db, nav, th)| > 0 && |Acceptable(Survivors(db, nav, th), th)| == 0
      && (!interactive || reply == "")
  {
    var byMbid := MbidMatches(db, nav);
    if |byMbid| > 0 then Decided(Match, byMbid, db)
    else
      var exact := ExactMatches(db, nav);
      if |exact| > 0 then Decided(Match, exact, db)
      else if !fuzzy then Decided(NoMatch, [], db)
      else Fuzzy(db, nav, interactive, th, reply)
  }

  // ---------------------------------------------------------------------------
  // Properties of the fuzzy stage

  /** Every ranked entry is a candidate with its own aggregate ratio. */
  lemma RankedEntries(db: ScrobbleDb, nav: NavidromeTrack)
    ensures forall x :: x in Ranked(db, nav) ==> x.item in Candidates(db, nav) && x == Score(nav, x.item)
  {
    var scored := Scoring(nav, Candidates(db, nav));
    forall x | x in Ranked(db, nav) ensures x.item in Candidates(db, nav) && x == Score(nav, x.item) {
      assert x in multiset(scored);
      var i :| 0 <= i < |scored| && scored[i] == x;
    }
  }

  /** The survivors are the ranking of the candidates that pass the floors:
      filtering after the sort, as the code does, equals sorting the
      filtered candidates. */
  lemma SurvivorsAreRanked(db: ScrobbleDb, nav: NavidromeTrack, th: Thresholds)
    ensures Survivors(db, nav, th) == SortDesc(Filter(Floors(db, nav, th), Scoring(nav, Candidates(db, nav))))
    ensures SortedDesc(Survivors(db, nav, th))
  {
    SortFilterCommute(Floors(db, nav, th), Scoring(nav, Candidates(db, nav)));
  }

  /** The candidates taken without asking are the best-ranked survivors: a
      prefix of the list the operator would see. */
  lemma AcceptedArePrefix(db: ScrobbleDb, nav: NavidromeTrack, th: Thresholds)
    ensures Acceptable(Survivors(db, nav, th), th) <= Survivors(db, nav, th)
  {
    SurvivorsAreRanked(db, nav, th);
    AboveThresholdIsPrefix(Survivors(db, nav, th), th.minRatioAll);
  }

  /** With `min_ratio_all` at 1 or above nothing is taken without asking,
      since a ratio never exceeds 1. */
  lemma FullThresholdNeverAccepts(db: ScrobbleDb, nav: NavidromeTrack, th: Thresholds)
    requires th.minRatioAll >= 1.0
    ensures Acceptable(Survivors(db, nav, th), th) == []
  {
    var ranked := Ranked(db, nav);
    var surv := Survivors(db, nav, th);
    RankedEntries(db, nav);
    assert forall x :: x in surv ==> x in ranked;
    assert forall x :: x in surv ==> x.score <= 1.0;
    NoMembers(Acceptable(surv, th));
  }

  /** Every track of the table that shares a field is ranked. */
  lemma CandidateRanked(db: ScrobbleDb, nav: NavidromeTrack, t: LastFMTrack)
    requires t in db.tracks && SharesField(nav, t)
    ensures Score(nav, AsCandidate(t)) in Ranked(db, nav)
  {
    var cands := Candidates(db, nav);
    var k :| 0 <= k < |cands| && cands[k] == AsCandidate(t);
    var scored := Scoring(nav, cands);
    assert scored[k] == Score(nav, AsCandidate(t));
    assert scored[k] in multiset(scored);
  }

  /** Equal fields pass every floor and the aggregate threshold. */
  lemma SameFieldsPass(nav: NavidromeTrack, c: LastFMTrack, th: Thresholds)
    requires c.title == nav.title && c.artist == nav.artist && AlbumText(c.album) == AlbumText(nav.album)
    requires th.minRatioEach < 1.0 && th.minRatioAll < 1.0
    ensures MinMatchRatio(nav, c) > th.minRatioEach
    ensures EnoughOverlap(nav, c, th.minOverlap)
    ensures AggregateRatio(nav, c) > th.minRatioAll
  {
    assert NavFields(nav) == LastFMFields(c);
    forall i | 0 <= i < 3 ensures FieldRatio(NavFields(nav)[i], LastFMFields(c)[i]) == 1.0
      && Overlaps(NavFields(nav)[i], LastFMFields(c)[i], th.minOverlap)
    {
      FieldRatioSame(NavFields(nav)[i], LastFMFields(c)[i]);
      Gestalt.LongestSelf(Lower(NavFields(nav)[i]));
    }
    assert NavKey(nav) == LastFMKey(c);
    AggregateRatioSame(nav, c);
  }

  /** A candidate whose trimmed title, trimmed artist and album equal the
      Navidrome track's is taken without asking, unless blacklisted. When
      both albums are missing the exact lookup cannot find it, since NULL
      equals nothing; this is the fuzzy stage's way to it. */
  lemma SameFieldsAccepted(db: ScrobbleDb, nav: NavidromeTrack, th: Thresholds, t: LastFMTrack)
    requires t in db.tracks && t.title == nav.title && t.artist == nav.artist
    requires AlbumText(t.album) == AlbumText(nav.album)
    requires !IsBlacklisted(db, nav, t)
    requires th.minRatioEach < 1.0 && th.minRatioAll < 1.0
    ensures AsCandidate(t) in Items(Acceptable(Survivors(db, nav, th), th))
    ensures t.album.None? ==> t !in ExactMatches(db, nav)
  {
    var c := AsCandidate(t);
    var x := Score(nav, c);
    CandidateRanked(db, nav, t);
    SameFieldsPass(nav, c, th);
    assert PassesFloors(db, nav, th, c);
    var surv := Survivors(db, nav, th);
    assert x in surv;
    var acc := Acceptable(surv, th);
    assert x in acc;
    var i :| 0 <= i < |acc| && acc[i] == x;
    assert Items(acc)[i] == c;
  }

  function ItemIdOf(x: Scored<LastFMTrack>): string
  {
    x.item.id
  }

  /** The candidates of a valid table are distinct tracks. */
  lemma CandidatesDistinct(db: ScrobbleDb, nav: NavidromeTrack)
    requires Valid(db)
    ensures DistinctKeys(IdOf, Candidates(db, nav))
  {
    assert DistinctKeys(IdOf, db.tracks);
    var shared := Filter(SharesFieldOf(nav), db.tracks);
    FilterDistinct(SharesFieldOf(nav), IdOf, db.tracks);
    var cands := Candidates(db, nav);
    assert forall i :: 0 <= i < |cands| ==> cands[i].id == shared[i].id;
  }

  /** So are the ranked candidates. */
  lemma RankedDistinct(db: ScrobbleDb, nav: NavidromeTrack)
    requires Valid(db)
    ensures DistinctKeys(ItemIdOf, Ranked(db, nav))
  {
    CandidatesDistinct(db, nav);
    var cands := Candidates(db, nav);
    var scored := Scoring(nav, cands);
    assert forall i :: 0 <= i < |scored| ==> ItemIdOf(scored[i]) == IdOf(cands[i]);
    PermutationDistinct(ItemIdOf, scored, Ranked(db, nav));
  }

  /** So are the survivors. */
  lemma SurvivorsDistinct(db: ScrobbleDb, nav: NavidromeTrack, th: Thresholds)
    requires Valid(db)
    ensures DistinctKeys(IdOf, Items(Survivors(db, nav, th)))
  {
    RankedDistinct(db, nav);
    FilterDistinct(Floors(db, nav, th), ItemIdOf, Ranked(db, nav));
    var surv := Survivors(db, nav, th);
    var items := Items(surv);
    assert forall i :: 0 <= i < |items| ==> IdOf(items[i]) == ItemIdOf(surv[i]);
  }

  /** A candidate keeps the id of its row of the table. */
  lemma CandidateInTable(db: ScrobbleDb, nav: NavidromeTrack, c: LastFMTrack)
    requires c in Candidates(db, nav)
    ensures c.id in TrackIds(db)
  {
    var u :| u in db.tracks && SharesField(nav, u) && c == AsCandidate(u);
    var k :| 0 <= k < |db.tracks| && db.tracks[k] == u;
  }

  /** The survivors are rows of the table, none blacklisted for this track. */
  lemma SurvivorsInTable(db: ScrobbleDb, nav: NavidromeTrack, th: Thresholds)
    ensures forall t :: t in Items(Survivors(db, nav, th)) ==> t.id in TrackIds(db) && !IsBlacklisted(db, nav, t)
  {
    var surv := Survivors(db, nav, th);
    var items := Items(surv);
    forall t | t in items ensures t.id in TrackIds(db) && !IsBlacklisted(db, nav, t) {
      var i :| 0 <= i < |items| && items[i] == t;
      var x := surv[i];
      assert x in surv;
      assert x in Ranked(db, nav) && PassesFloors(db, nav, th, t);
      RankedEntries(db, nav);
      CandidateInTable(db, nav, t);
    }
  }

  /** Rejecting all candidates never trips over the table constraints: the
      survivors are distinct tracks of the table, none blacklisted yet. */
  lemma RejectAllSucceeds(db: ScrobbleDb, nav: NavidromeTrack, th: Thresholds)
    requires Valid(db)
    ensures BlacklistAll(db, nav, Items(Survivors(db, nav, th))).Written?
  {
    SurvivorsDistinct(db, nav, th);
    SurvivorsInTable(db, nav, th);
    BlacklistAllSucceeds(db, nav, Items(Survivors(db, nav, th)));
  }

  /** On a valid database the matcher raises only on the operator's typing:
      a reply that is not a list of integers, or an index out of range. */
  lemma IntegrityNeverRaised(db: ScrobbleDb, nav: NavidromeTrack, interactive: bool, fuzzy: bool, th: Thresholds, reply: string)
    requires Valid(db)
    ensures var r := MatchLastFMTracksFor(db, nav, interactive, fuzzy, th, reply);
      r.Raised? ==> !r.fault.Integrity?
  {
    RejectAllSucceeds(db, nav, th);
  }

  /** The database after every survivor is blacklisted for `nav`. */
  function RejectedAll(db: ScrobbleDb, nav: NavidromeTrack, th: Thresholds): ScrobbleDb
  {
    db.(blacklist := db.blacklist + set x | x in Items(Survivors(db, nav, th)) :: Link(x.id, nav.id))
  }

  /** Once every survivor is blacklisted, none survives. */
  lemma NoneSurvivesRejection(db: ScrobbleDb, nav: NavidromeTrack, th: Thresholds)
    ensures Survivors(RejectedAll(db, nav, th), nav, th) == []
  {
    var db' := RejectedAll(db, nav, th);
    var surv := Survivors(db, nav, th);
    assert Ranked(db', nav) == Ranked(db, nav);
    forall x | x in Ranked(db, nav) ensures !PassesFloors(db', nav, th, x.item) {
      if PassesFloors(db, nav, th, x.item) {
        assert x in surv;
        var i :| 0 <= i < |surv| && surv[i] == x;
        assert x.item == Items(surv)[i];
      }
    }
    NoMembers(Survivors(db', nav, th));
  }

  /** Rejecting all candidates is final: asked again about the same track,
      with any answer, the matcher finds nothing and asks nothing. */
  lemma RejectAllIsFinal(db: ScrobbleDb, nav: NavidromeTrack, interactive: bool, fuzzy: bool, th: Thresholds,
                         reply: string, interactive': bool, reply': string)
    requires MatchLastFMTracksFor(db, nav, interactive, fuzzy, th, reply).Decided?
    requires MatchLastFMTracksFor(db, nav, interactive, fuzzy, th, reply).db != db
    ensures var db' := MatchLastFMTracksFor(db, nav, interactive, fuzzy, th, reply).db;
      MatchLastFMTracksFor(db', nav, interactive', fuzzy, th, reply') == Decided(NoMatch, [], db')
  {
    var db' := MatchLastFMTracksFor(db, nav, interactive, fuzzy, th, reply).db;
    assert db' == RejectedAll(db, nav, th);
    NoneSurvivesRejection(db, nav, th);
    assert MbidMatches(db', nav) == MbidMatches(db, nav);
    assert ExactMatches(db', nav) == ExactMatches(db, nav);
  }
}
