/** `update_playcounts` of src/navidrome_fm/db.py: the scrobbles are joined
    with the saved matches, grouped by Navidrome track into a play count and
    a last play time, and upserted into Navidrome's `annotation` table for
    one user; the upsert is committed only when the operator answers "y".

    Play dates are modelled as Unix seconds: the statement writes
    `datetime(timestamp, 'unixepoch')` and compares through `unixepoch(...)`,
    which round-trips whole seconds. An existing row's date that is NULL or
    not a date reads as `None`. */
module Playcounts {
  import opened Text
  import opened Seqs
  import opened Store
  import Api

  /** The scrobbles in the group of Navidrome id `n` of the join
      `scrobble JOIN match ON trackid`, in row order. The `match` key is the
      pair of ids, so each scrobble meets at most one `match` row of a group
      and the group's rows are these scrobbles. */
  function Plays(db: ScrobbleDb, n: string): seq<ScrobbleRow>
  {
    Filter((s: ScrobbleRow) => Link(s.trackId, n) in db.matches, db.scrobbles)
  }

  /** The Navidrome ids that have a group: some matched track was played. */
  function Grouped(db: ScrobbleDb): set<string>
  {
    set s, l | s in db.scrobbles && l in db.matches && s.trackId == l.trackId :: l.navidromeId
  }

  /** `COUNT(*)` and `MAX(scrobble.timestamp)` of one group. */
  datatype Tally = Tally(count: nat, last: int)

  /** The latest timestamp among some scrobbles. */
  function LastPlayed(p: seq<ScrobbleRow>): (m: int)
    requires |p| > 0
    ensures exists s :: s in p && s.timestamp == m
    ensures forall s :: s in p ==> s.timestamp <= m
  {
    if |p| == 1 then p[0].timestamp
    else
      var rest := LastPlayed(p[1..]);
      assert forall s :: s in p ==> s == p[0] || s in p[1..];
      if p[0].timestamp > rest then p[0].timestamp else rest
  }

  /** The inner `SELECT ... GROUP BY match.navidromeid`: for every played
      Navidrome track, its number of plays and its latest play. */
  function Counted(db: ScrobbleDb): (r: map<string, Tally>)
    ensures r.Keys == Grouped(db)
    ensures forall n :: n in r ==>
      && r[n].count == |Plays(db, n)| >= 1
      && (exists s :: s in Plays(db, n) && s.timestamp == r[n].last)
      && (forall s :: s in Plays(db, n) ==> s.timestamp <= r[n].last)
  {
    map n | n in Grouped(db) :: GroupTally(db, n)
  }

  function GroupTally(db: ScrobbleDb, n: string): (t: Tally)
    requires n in Grouped(db)
    ensures t.count == |Plays(db, n)| >= 1
    ensures exists s :: s in Plays(db, n) && s.timestamp == t.last
    ensures forall s :: s in Plays(db, n) ==> s.timestamp <= t.last
  {
    var s0, l0 :| s0 in db.scrobbles && l0 in db.matches && s0.trackId == l0.trackId && l0.navidromeId == n;
    assert l0 == Link(s0.trackId, n);
    assert s0 in Plays(db, n);
    Tally(|Plays(db, n)|, LastPlayed(Plays(db, n)))
  }

  // ---------------------------------------------------------------------------
  // The upsert

  /** Navidrome's `annotation` key `(user_id, item_id, item_type)`. */
  datatype AnnKey = AnnKey(userId: string, itemId: string, itemType: string)

  /** The two annotation columns the statement writes; NULL is `None`. */
  datatype Annotation = Annotation(playCount: Option<int>, playDate: Option<int>)

  /** A row of the statement's `RETURNING item_id, play_count, play_date`. */
  datatype Change = Change(itemId: string, playCount: int, playDate: int)

  const MediaFile := "media_file"

  /** SQL `a < b` where a NULL makes the comparison false. */
  predicate SqlLess(a: Option<int>, b: int)
  {
    a.Some? && a.value < b
  }

  /** Whether the upsert writes the tally `t` at `key`: a missing row is
      inserted; an existing row is overwritten when its count is lower or
      its date is earlier. */
  predicate Writes(ann: map<AnnKey, Annotation>, key: AnnKey, t: Tally)
  {
    key !in ann || SqlLess(ann[key].playCount, t.count) || SqlLess(ann[key].playDate, t.last)
  }

  function Key(user: string, n: string): AnnKey
  {
    AnnKey(user, n, MediaFile)
  }

  /** The groups the statement writes. */
  function WrittenGroups(ann: map<AnnKey, Annotation>, user: string, counted: map<string, Tally>): set<string>
  {
    set n | n in counted && Writes(ann, Key(user, n), counted[n])
  }

  /** The `annotation` table as the upsert leaves it, before commit or
      rollback. */
  function Upsert(ann: map<AnnKey, Annotation>, user: string, counted: map<string, Tally>): (r: map<AnnKey, Annotation>)
    ensures r.Keys == ann.Keys + set n | n in counted :: Key(user, n)
    ensures forall n :: n in counted ==> !Writes(r, Key(user, n), counted[n])
    ensures forall n :: n in WrittenGroups(ann, user, counted) ==>
      r[Key(user, n)] == Annotation(Some(counted[n].count), Some(counted[n].last))
    ensures forall k :: (k in ann && (k.userId != user || k.itemType != MediaFile || k.itemId !in WrittenGroups(ann, user, counted))
      ==> r[k] == ann[k])
  {
    var written := WrittenGroups(ann, user, counted);
    map k | k in ann.Keys + (set n | n in counted :: Key(user, n)) ::
      if k.userId == user && k.itemType == MediaFile && k.itemId in written
      then Annotation(Some(counted[k.itemId].count), Some(counted[k.itemId].last))
      else ann[k]
  }

  /** What a committed upsert leaves, in terms of the changes it reports:
      each change is the row the table then holds, no other row is touched,
      and a row is added only for a change (a group with no row is always
      behind its tally). */
  lemma CommittedRows(ann: map<AnnKey, Annotation>, user: string, counted: map<string, Tally>, changes: set<Change>)
    requires forall c :: c in changes <==>
      c.itemId in WrittenGroups(ann, user, counted)
      && c.playCount == counted[c.itemId].count && c.playDate == counted[c.itemId].last
    ensures forall c :: c in changes ==>
      Key(user, c.itemId) in Upsert(ann, user, counted)
      && Upsert(ann, user, counted)[Key(user, c.itemId)] == Annotation(Some(c.playCount), Some(c.playDate))
    ensures forall k :: (k in ann && !(exists c :: c in changes && k == Key(user, c.itemId))
      ==> k in Upsert(ann, user, counted) && Upsert(ann, user, counted)[k] == ann[k])
    ensures Upsert(ann, user, counted).Keys == ann.Keys + set c | c in changes :: Key(user, c.itemId)
  {
    var written := WrittenGroups(ann, user, counted);
    forall n | n in counted && Key(user, n) !in ann ensures n in written {
      assert Writes(ann, Key(user, n), counted[n]);
    }
    forall n | n in written ensures Key(user, n) in set c | c in changes :: Key(user, c.itemId) {
      assert Change(n, counted[n].count, counted[n].last) in changes;
    }
  }

  datatype Outcome = Outcome(annotations: map<AnnKey, Annotation>, changes: set<Change>, committed: bool)

  /** `update_playcounts(user_id)`. `reply` is what the operator types at
      the confirmation prompt, which is shown only when some row changed. */
  function UpdatePlaycounts(db: ScrobbleDb, ann: map<AnnKey, Annotation>, user: string, reply: string): (r: Outcome)
    // the statement reports exactly the rows it writes, with the values written
    ensures forall c :: c in r.changes <==>
      c.itemId in WrittenGroups(ann, user, Counted(db))
      && c.playCount == Counted(db)[c.itemId].count && c.playDate == Counted(db)[c.itemId].last
    ensures r.committed <==> r.changes != {} && Lower(reply) == "y"
    ensures !r.committed ==> r.annotations == ann
    // after a commit no group is behind its tally any more
    ensures r.committed ==> forall n :: n in Counted(db) ==> !Writes(r.annotations, Key(user, n), Counted(db)[n])
    // every reported change is what the table then holds
    ensures r.committed ==> forall c :: c in r.changes ==>
      Key(user, c.itemId) in r.annotations
      && r.annotations[Key(user, c.itemId)] == Annotation(Some(c.playCount), Some(c.playDate))
    // and no other row was touched
    ensures r.committed ==> forall k :: (k in ann && !(exists c :: c in r.changes && k == Key(user, c.itemId))
      ==> k in r.annotations && r.annotations[k] == ann[k])
    // and the only rows added are those of reported changes
    ensures r.committed ==> r.annotations.Keys == ann.Keys + set c | c in r.changes :: Key(user, c.itemId)
  {
    var counted := Counted(db);
    var written := WrittenGroups(ann, user, counted);
    var changes := set n | n in written :: Change(n, counted[n].count, counted[n].last);
    var upserted := Upsert(ann, user, counted);
    if changes == {} then Outcome(ann, changes, false)
    else if Lower(reply) == "y" then
      CommittedRows(ann, user, counted, changes);
      Outcome(upserted, changes, true)
    else Outcome(ann, changes, false)
  }

  /** Once committed, running the update again over the same scrobbles finds
      nothing to change and does not prompt. */
  lemma UpdateIsIdempotent(db: ScrobbleDb, ann: map<AnnKey, Annotation>, user: string, reply: string, reply2: string)
    requires UpdatePlaycounts(db, ann, user, reply).committed
    ensures UpdatePlaycounts(db, UpdatePlaycounts(db, ann, user, reply).annotations, user, reply2).changes == {}
    ensures UpdatePlaycounts(db, UpdatePlaycounts(db, ann, user, reply).annotations, user, reply2).annotations
         == UpdatePlaycounts(db, ann, user, reply).annotations
  {
    var ann' := UpdatePlaycounts(db, ann, user, reply).annotations;
    assert WrittenGroups(ann', user, Counted(db)) == {};
    var r := UpdatePlaycounts(db, ann', user, reply2);
    assert forall c :: c !in r.changes;
  }

  /** An overwrite takes both columns from the tally, so a row whose date is
      behind can lose plays: the stored count goes down. */
  lemma OverwriteCanLowerCount()
    ensures var ann := map[Key("u", "n") := Annotation(Some(10), Some(100))];
      var db := ScrobbleDb([LastFMTrack("t", "x", "y", None, None)], [ScrobbleRow("t", 200)],
                           {Link("t", "n")}, {});
      var r := UpdatePlaycounts(db, ann, "u", "Y");
      r.committed && r.annotations[Key("u", "n")] == Annotation(Some(1), Some(200))
  {
    var ann := map[Key("u", "n") := Annotation(Some(10), Some(100))];
    var row := ScrobbleRow("t", 200);
    var db := ScrobbleDb([LastFMTrack("t", "x", "y", None, None)], [row], {Link("t", "n")}, {});
    assert Plays(db, "n") == [row];
    assert db.scrobbles[0] == row;
    assert "n" in Grouped(db);
    var counted := Counted(db);
    assert counted["n"] == Tally(1, 200);
    assert "n" in WrittenGroups(ann, "u", counted);
    var r := UpdatePlaycounts(db, ann, "u", "Y");
    assert Change("n", 1, 200) in r.changes;
    assert Lower("Y") == "y";
    assert r.committed;
  }

  /** A row whose count and date are both NULL is never overwritten. */
  lemma NullRowIsKept(db: ScrobbleDb, ann: map<AnnKey, Annotation>, user: string, reply: string, n: string)
    requires Key(user, n) in ann && ann[Key(user, n)] == Annotation(None, None)
    ensures UpdatePlaycounts(db, ann, user, reply).annotations[Key(user, n)] == Annotation(None, None)
  {
  }

  /** A scrobble appended to the table joins the group of a Navidrome track
      it is matched to, at the end. */
  lemma PlaysAppend(db: ScrobbleDb, db': ScrobbleDb, row: ScrobbleRow, n: string)
    requires db'.scrobbles == db.scrobbles + [row] && db'.matches == db.matches
    requires Link(row.trackId, n) in db.matches
    ensures Plays(db', n) == Plays(db, n) + [row]
    ensures n in Grouped(db')
  {
    FilterConcat((r: ScrobbleRow) => Link(r.trackId, n) in db.matches, db.scrobbles, [row]);
    assert row in db'.scrobbles;
  }

  /** The latest play of a list extended by one scrobble. */
  lemma LastPlayedAppend(p: seq<ScrobbleRow>, x: ScrobbleRow)
    requires |p| > 0
    ensures LastPlayed(p + [x]) == if x.timestamp > LastPlayed(p) then x.timestamp else LastPlayed(p)
  {
    var m := LastPlayed(p);
    var v :| v in p && v.timestamp == m;
    assert v in p + [x] && x in p + [x];
    assert forall s :: s in p + [x] ==> s in p || s == x;
  }

  /** A new scrobble of a matched track adds one play to the group of every
      Navidrome track it is matched to, and moves its last play forward to
      the scrobble's time if it is later. */
  lemma NewScrobbleAddsOnePlay(db: ScrobbleDb, s: Api.Scrobble, hash: string -> string, n: string)
    requires AddScrobble(db, s, hash).isNew
    requires Link(Api.TrackId(s, hash), n) in db.matches
    ensures var db' := AddScrobble(db, s, hash).db;
      && n in Counted(db')
      && Counted(db')[n].count == |Plays(db, n)| + 1
      && (n in Counted(db) ==> Counted(db')[n].last == if s.uts > Counted(db)[n].last then s.uts else Counted(db)[n].last)
  {
    var db' := AddScrobble(db, s, hash).db;
    var row := ScrobbleRow(Api.TrackId(s, hash), s.uts);
    PlaysAppend(db, db', row, n);
    assert Counted(db')[n] == GroupTally(db', n);
    if n in Counted(db) {
      assert Counted(db)[n] == GroupTally(db, n);
      LastPlayedAppend(Plays(db, n), row);
    }
  }
}
