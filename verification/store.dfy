/** The scrobble database of src/navidrome_fm/db.py: the four tables `track`,
    `scrobble`, `match` and `blacklist` as values, with the writes
    `add_scrobble_from_api`, `save_match` and `blacklist_match` as state
    transformers, the read-only queries `is_blacklisted`, `iter_unmatched`
    and `get_user_or_only`, and the table constraints as a validity
    predicate. */
module Store {
  import opened Text
  import opened Seqs
  import Api

  /** A row of `track`, as last.fm reported it. */
  datatype LastFMTrack = LastFMTrack(id: string, title: string, artist: string, album: Option<string>, mbid: Option<string>)

  /** A row of Navidrome's `media_file`, the local library. */
  datatype NavidromeTrack = NavidromeTrack(id: string, title: string, artist: string, album: Option<string>,
                                           mbzRecordingId: Option<string>)

  /** A row of `scrobble`. */
  datatype ScrobbleRow = ScrobbleRow(trackId: string, timestamp: int)

  /** A row of `match` or `blacklist`: a last.fm track id and a Navidrome id. */
  datatype Link = Link(trackId: string, navidromeId: string)

  /** The scrobble database. `tracks` and `scrobbles` are in row order: a
      query without `ORDER BY` returns matching rows in this order. */
  datatype ScrobbleDb = ScrobbleDb(tracks: seq<LastFMTrack>, scrobbles: seq<ScrobbleRow>,
                                   matches: set<Link>, blacklist: set<Link>)

  /** The two ways a plain `INSERT` fails (`sqlite3.IntegrityError`). */
  datatype IntegrityError = DuplicateKey | UnknownTrack

  datatype Written = Written(db: ScrobbleDb) | Rejected(err: IntegrityError)

  const Empty := ScrobbleDb([], [], {}, {})

  function TrackIds(db: ScrobbleDb): set<string>
  {
    set i | 0 <= i < |db.tracks| :: db.tracks[i].id
  }

  ghost predicate Valid(db: ScrobbleDb)
  {
    // id is the primary key of track
    && (forall i, j :: 0 <= i < j < |db.tracks| ==> db.tracks[i].id != db.tracks[j].id)
    // empty album names and MusicBrainz ids are stored as NULL
    && (forall i :: 0 <= i < |db.tracks| ==> db.tracks[i].album != Some("") && db.tracks[i].mbid != Some(""))
    // (trackid, timestamp) is the primary key of scrobble
    && (forall i, j :: 0 <= i < j < |db.scrobbles| ==> db.scrobbles[i] != db.scrobbles[j])
    // every trackid column references track(id)
    && (forall r :: r in db.scrobbles ==> r.trackId in TrackIds(db))
    && (forall l :: l in db.matches ==> l.trackId in TrackIds(db))
    && (forall l :: l in db.blacklist ==> l.trackId in TrackIds(db))
  }

  lemma EmptyIsValid()
    ensures Valid(Empty)
  {
  }

  /** `s or None` on a string column. */
  function NullIfEmpty(s: string): (r: Option<string>)
    ensures r != Some("")
    ensures r.Some? ==> r.value == s
  {
    if s == "" then None else Some(s)
  }

  // ---------------------------------------------------------------------------
  // add_scrobble_from_api

  datatype Ingested = Ingested(db: ScrobbleDb, isNew: bool)

  /** `add_scrobble_from_api`: `INSERT OR IGNORE` the track, then `INSERT OR
      IGNORE` the scrobble; reports whether the scrobble was new. */
  function AddScrobble(db: ScrobbleDb, s: Api.Scrobble, hash: string -> string): (r: Ingested)
    ensures r.isNew <==> ScrobbleRow(Api.TrackId(s, hash), s.uts) !in db.scrobbles
    ensures r.db.scrobbles == db.scrobbles + (if r.isNew then [ScrobbleRow(Api.TrackId(s, hash), s.uts)] else [])
    ensures TrackIds(r.db) == TrackIds(db) + {Api.TrackId(s, hash)}
    // existing track rows are never replaced, and at most one row is added
    ensures db.tracks <= r.db.tracks && |r.db.tracks| <= |db.tracks| + 1
    ensures Api.TrackId(s, hash) in TrackIds(db) ==> r.db.tracks == db.tracks
    // a new track row holds the title, the artist, the album or NULL and the mbid or NULL
    ensures Api.TrackId(s, hash) !in TrackIds(db) ==>
      r.db.tracks == db.tracks + [LastFMTrack(Api.TrackId(s, hash), s.name, s.artistName, NullIfEmpty(s.albumName), NullIfEmpty(s.mbid))]
    ensures r.db.matches == db.matches && r.db.blacklist == db.blacklist
    ensures Valid(db) ==> Valid(r.db)
  {
    var id := Api.TrackId(s, hash);
    var row := LastFMTrack(id, s.name, s.artistName, NullIfEmpty(s.albumName), NullIfEmpty(s.mbid));
    var tracks := if id in TrackIds(db) then db.tracks else db.tracks + [row];
    assert TrackIds(db.(tracks := tracks)) == TrackIds(db) + {id} by {
      if id !in TrackIds(db) {
        assert tracks[|db.tracks|].id == id;
        forall x | x in TrackIds(db) ensures x in TrackIds(db.(tracks := tracks)) {
          var i :| 0 <= i < |db.tracks| && db.tracks[i].id == x;
          assert tracks[i].id == x;
        }
      }
    }
    var event := ScrobbleRow(id, s.uts);
    var isNew := event !in db.scrobbles;
    Ingested(db.(tracks := tracks, scrobbles := db.scrobbles + if isNew then [event] else []), isNew)
  }

  /** `add_scrobble_from_api(s)` on a ScrobbleModel: reading its fields
      may raise, otherwise the record is ingested. */
  function AddScrobbleFromApi(db: ScrobbleDb, p: Api.Parsed<Api.Value>, hash: string -> string): (r: Api.Attempt<Ingested>)
    requires Api.IsScrobbleModel(p)
    ensures r.Raised? <==> Api.ScrobbleRecord(p).Raised?
    ensures r.Returned? ==> r.value == AddScrobble(db, Api.ScrobbleRecord(p).value, hash)
  {
    match Api.ScrobbleRecord(p)
    case Raised => Api.Raised
    case Returned(s) => Api.Returned(AddScrobble(db, s, hash))
  }

  /** A scrobble that arrives as last.fm's JSON is stored as the scrobble
      it encodes. */
  lemma IngestEntry(db: ScrobbleDb, s: Api.Scrobble, hash: string -> string)
    ensures Api.ParseEntry(Api.JDict(Api.EntryJson(s))).Returned?
    ensures var p := Api.ParseEntry(Api.JDict(Api.EntryJson(s))).value;
      Api.IsScrobbleModel(p) && AddScrobbleFromApi(db, p, hash) == Api.Returned(AddScrobble(db, s, hash))
  {
    Api.EntryRoundTrip(s);
  }

  /** Ingesting the same scrobble twice: the second call reports it as known
      and changes neither table. */
  lemma AddScrobbleIdempotent(db: ScrobbleDb, s: Api.Scrobble, hash: string -> string)
    ensures !AddScrobble(AddScrobble(db, s, hash).db, s, hash).isNew
    ensures AddScrobble(AddScrobble(db, s, hash).db, s, hash).db == AddScrobble(db, s, hash).db
  {
    var once := AddScrobble(db, s, hash).db;
    var twice := AddScrobble(once, s, hash).db;
    assert twice.tracks == once.tracks;
    assert twice.scrobbles == once.scrobbles;
  }

  /** A scrobble already in a valid database is ignored. */
  lemma AddKnownScrobble(db: ScrobbleDb, s: Api.Scrobble, hash: string -> string)
    requires Valid(db)
    requires ScrobbleRow(Api.TrackId(s, hash), s.uts) in db.scrobbles
    ensures AddScrobble(db, s, hash) == Ingested(db, false)
  {
    var r := AddScrobble(db, s, hash);
    assert r.db.tracks == db.tracks;
    assert r.db.scrobbles == db.scrobbles;
  }

  // ---------------------------------------------------------------------------
  // save_match / blacklist_match / is_blacklisted

  /** A plain `INSERT` of `link` into a table keyed by the whole pair whose
      `trackid` references `track(id)`. */
  function InsertLink(table: set<Link>, link: Link, ids: set<string>): (r: Option<IntegrityError>)
    ensures r == None <==> link !in table && link.trackId in ids
    ensures r == Some(DuplicateKey) <==> link in table
  {
    if link in table then Some(DuplicateKey)
    else if link.trackId !in ids then Some(UnknownTrack)
    else None
  }

  /** `save_match(navidrome, lastfm)`: inserts the pair into `match`. */
  function SaveMatch(db: ScrobbleDb, nav: NavidromeTrack, lf: LastFMTrack): (r: Written)
    ensures r.Written? <==> Link(lf.id, nav.id) !in db.matches && lf.id in TrackIds(db)
    ensures r.Rejected? ==> (r.err == DuplicateKey <==> Link(lf.id, nav.id) in db.matches)
    ensures r.Written? ==> r.db == db.(matches := db.matches + {Link(lf.id, nav.id)})
    ensures r.Written? && Valid(db) ==> Valid(r.db)
  {
    match InsertLink(db.matches, Link(lf.id, nav.id), TrackIds(db))
    case None => Written(db.(matches := db.matches + {Link(lf.id, nav.id)}))
    case Some(err) => Rejected(err)
  }

  /** `blacklist_match(navidrome, lastfm)`: inserts the pair into `blacklist`. */
  function BlacklistMatch(db: ScrobbleDb, nav: NavidromeTrack, lf: LastFMTrack): (r: Written)
    ensures r.Written? <==> !IsBlacklisted(db, nav, lf) && lf.id in TrackIds(db)
    ensures r.Rejected? ==> (r.err == DuplicateKey <==> IsBlacklisted(db, nav, lf))
    ensures r.Written? ==> r.db == db.(blacklist := db.blacklist + {Link(lf.id, nav.id)})
    ensures r.Written? && Valid(db) ==> Valid(r.db)
  {
    match InsertLink(db.blacklist, Link(lf.id, nav.id), TrackIds(db))
    case None => Written(db.(blacklist := db.blacklist + {Link(lf.id, nav.id)}))
    case Some(err) => Rejected(err)
  }

  /** `is_blacklisted(navidrome, lastfm)`: some `blacklist` row has the
      last.fm id as `trackid` and the local id as `navidromeid`. */
  function IsBlacklisted(db: ScrobbleDb, nav: NavidromeTrack, lf: LastFMTrack): (r: bool)
    ensures r <==> Link(lf.id, nav.id) in db.blacklist
  {
    var rows := set l | l in db.blacklist && l.trackId == lf.id && l.navidromeId == nav.id :: l.trackId;
    assert Link(lf.id, nav.id) in db.blacklist ==> lf.id in rows;
    assert Link(lf.id, nav.id) !in db.blacklist ==> rows == {};
    |rows| > 0
  }

  /** A pair is blacklisted right after a successful `blacklist_match`, and
      blacklisting it again is an error. */
  lemma BlacklistThenQuery(db: ScrobbleDb, nav: NavidromeTrack, lf: LastFMTrack)
    requires BlacklistMatch(db, nav, lf).Written?
    ensures IsBlacklisted(BlacklistMatch(db, nav, lf).db, nav, lf)
    ensures BlacklistMatch(BlacklistMatch(db, nav, lf).db, nav, lf) == Rejected(DuplicateKey)
  {
  }

  /** Saving the same match twice is an error, not a no-op. */
  lemma SaveMatchTwice(db: ScrobbleDb, nav: NavidromeTrack, lf: LastFMTrack)
    requires SaveMatch(db, nav, lf).Written?
    ensures SaveMatch(SaveMatch(db, nav, lf).db, nav, lf) == Rejected(DuplicateKey)
  {
  }

  // ---------------------------------------------------------------------------
  // iter_unmatched

  /** Some `match` row names the Navidrome id. */
  ghost predicate IsMatched(db: ScrobbleDb, navidromeId: string)
  {
    exists l :: l in db.matches && l.navidromeId == navidromeId
  }

  /** `iter_unmatched`: the Navidrome tracks whose id appears in no `match`
      row. The query has no `ORDER BY`; the model yields them in the order
      of the library sequence, and its contract promises only which tracks
      are yielded and how often. */
  function IterUnmatched(library: seq<NavidromeTrack>, db: ScrobbleDb): (r: seq<NavidromeTrack>)
    ensures forall t :: t in r <==> t in library && !IsMatched(db, t.id)
    ensures forall t :: multiset(r)[t] == if IsMatched(db, t.id) then 0 else multiset(library)[t]
  {
    var matched := set l | l in db.matches :: l.navidromeId;
    assert forall id :: id in matched <==> IsMatched(db, id);
    var r := Filter((t: NavidromeTrack) => t.id !in matched, library);
    forall t ensures multiset(r)[t] == if IsMatched(db, t.id) then 0 else multiset(library)[t] {
      FilterMultiset((t: NavidromeTrack) => t.id !in matched, library, t);
    }
    r
  }

  /** Once a match is saved for a Navidrome track it is no longer offered,
      and no other track's status changes. */
  lemma SavedMatchLeavesUnmatched(library: seq<NavidromeTrack>, db: ScrobbleDb, nav: NavidromeTrack, lf: LastFMTrack)
    requires SaveMatch(db, nav, lf).Written?
    ensures nav !in IterUnmatched(library, SaveMatch(db, nav, lf).db)
    ensures forall t: NavidromeTrack :: t.id != nav.id ==>
      (t in IterUnmatched(library, SaveMatch(db, nav, lf).db) <==> t in IterUnmatched(library, db))
  {
    var db' := SaveMatch(db, nav, lf).db;
    assert Link(lf.id, nav.id) in db'.matches;
    forall t: NavidromeTrack | t.id != nav.id ensures IsMatched(db', t.id) <==> IsMatched(db, t.id) {
      if IsMatched(db', t.id) {
        var l :| l in db'.matches && l.navidromeId == t.id;
        assert l in db.matches;
      }
    }
  }

  // ---------------------------------------------------------------------------
  // get_user_or_only

  /** A row of Navidrome's `user` table. */
  datatype NavidromeUser = NavidromeUser(id: string, userName: string)

  /** The user passes the optional user-name filter. */
  predicate Eligible(name: Option<string>, u: NavidromeUser)
  {
    name.None? || u.userName == name.value
  }

  /** `get_user_or_only(name)`: the one user left after the optional filter
      on the user name; None when none or several are left. */
  function GetUserOrOnly(users: seq<NavidromeUser>, name: Option<string>): (r: Option<NavidromeUser>)
    ensures r.Some? ==> r.value in users && Eligible(name, r.value)
    ensures r.Some? ==> forall i :: 0 <= i < |users| && Eligible(name, users[i]) ==> users[i] == r.value
    ensures r.Some? ==> forall i, j :: 0 <= i < j < |users| ==> !(Eligible(name, users[i]) && Eligible(name, users[j]))
    ensures r.None? <==>
      (forall i :: 0 <= i < |users| ==> !Eligible(name, users[i]))
      || exists i, j :: 0 <= i < j < |users| && Eligible(name, users[i]) && Eligible(name, users[j])
  {
    var candidates := Filter((u: NavidromeUser) => Eligible(name, u), users);
    CountEligible(users, name);
    if |candidates| == 1 then Some(candidates[0]) else None
  }

  /** The number of rows passing the filter, told by positions. */
  lemma {:induction false} CountEligible(users: seq<NavidromeUser>, name: Option<string>)
    ensures var c := Filter((u: NavidromeUser) => Eligible(name, u), users);
      && (|c| == 0 <==> forall i :: 0 <= i < |users| ==> !Eligible(name, users[i]))
      && (|c| >= 2 <==> exists i, j :: 0 <= i < j < |users| && Eligible(name, users[i]) && Eligible(name, users[j]))
      && (|c| == 1 ==> forall i :: 0 <= i < |users| && Eligible(name, users[i]) ==> users[i] == c[0])
  {
    var keep := (u: NavidromeUser) => Eligible(name, u);
    if |users| > 0 {
      CountEligible(users[1..], name);
      var c := Filter(keep, users);
      var c' := Filter(keep, users[1..]);
      assert forall i :: 0 < i < |users| ==> users[i] == users[1..][i - 1];
      if Eligible(name, users[0]) {
        assert c == [users[0]] + c';
        if |c'| > 0 {
          assert c'[0] in users[1..];
          var k :| 0 <= k < |users[1..]| && users[1..][k] == c'[0];
          assert Eligible(name, users[0]) && Eligible(name, users[k + 1]);
        }
      } else {
        assert c == c';
        if exists i, j :: 0 <= i < j < |users| && Eligible(name, users[i]) && Eligible(name, users[j]) {
          var i, j :| 0 <= i < j < |users| && Eligible(name, users[i]) && Eligible(name, users[j]);
          assert Eligible(name, users[1..][i - 1]) && Eligible(name, users[1..][j - 1]);
        }
      }
    }
  }
}
