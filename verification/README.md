# navidrome-fm in Dafny

navidrome-fm copies a last.fm listening history into a Navidrome music
server. It pages through `user.getrecenttracks` and stores every scrobble
in its own SQLite database (tables `track`, `scrobble`, `match`,
`blacklist`). It then matches each last.fm track to the tracks of the
Navidrome library, and writes play counts and last-played dates into
Navidrome's `annotation` table.

This project models that core as pure functions over immutable values and
proves properties of them:

- `text.dfy` (module `Text`): SQL NULL / Python None as `Option`,
  ASCII lower-casing, last-occurrence search, `str.split` / `str.join` on one
  character, and `str(n)` / `int(s)`.
- `seqs.dfy` (module `Seqs`): order-preserving `Filter` (every `SELECT ...
  WHERE` and every comprehension with an `if`), `Map`, distinct keys.
- `gestalt.dfy` (module `Gestalt`): `difflib.SequenceMatcher` without junk:
  `find_longest_match` with its tie-break, the matching-block total, and
  `ratio()`.
- `ranking.dfy` (module `Ranking`): `sorted(..., reverse=True)` by score as a
  stable insertion sort.
- `store.dfy` (module `Store`): the four tables and their key and
  foreign-key constraints, plus:
  - `add_scrobble_from_api`;
  - `save_match` and `blacklist_match`, whose plain `INSERT` can fail with an
    integrity error;
  - `is_blacklisted`, `iter_unmatched` and `get_user_or_only`.
- `playcounts.dfy` (module `Playcounts`): `update_playcounts`. This covers
  the join and grouping, the conditional upsert, the rows it reports, and
  the confirmation prompt that decides between commit and rollback.
- `matcher.dfy` (module `Matcher`): `match_lastfm_tracks_for` with
  `trim_feature`, `matcher_for`, `min_match_ratio` and `enough_overlap`. It
  covers the MusicBrainz tier, the exact tier and the fuzzy tier, and the
  operator's answer to the prompt, including rejecting every candidate.
- `api.dfy` (module `Api`): `Model.from_response`, driven by an explicit field
  schema, on objects and on the strings, lists and scalars a response can
  hold where an object is expected. It also covers:
  - the `parse_field` of every model class on the recent-tracks path,
    including the fallback from a scrobble to a track;
  - the properties `TrackModel.track_id`, `is_now_playing` and the
    `name` of artists and albums;
  - reading a parsed scrobble as the record the database stores.
- `request.dfy` (module `Request`): the query parameters built by
  `LastFMAPIRequest.__init__`.
- `pages.dfy` (module `Pages`): the `get_recenttracks` generator loop.

Whatever the program reads from outside is a parameter of the model:
- `hash` stands for `sha256(...).hexdigest()`;
- `fetch(page)` stands for one page response from the network, as `Pages.ReadPage` reads it;
- `reply` is what the operator types at a prompt;
- `library` and `users` are Navidrome's `media_file` and `user` rows;
- `ann` is Navidrome's `annotation` table.

Exceptions that escape a call are modelled as values: `Attempt.Raised`,
`Written.Rejected`, `Decision.Raised`.

Some behaviours of the code worth knowing:
- `save_match` and `blacklist_match` are not idempotent. A second insert of
  the same pair is an integrity error (`Store.SaveMatchTwice`,
  `Store.BlacklistThenQuery`).
- The exact tier compares title and artist as written. `COLLATE NOCASE`
  applies only to the album comparison (`Matcher.ExactMatches`).
- `trim_feature` cuts at the last `"feat. "` and then at the last `"ft. "`
  of a text with no line break other than a final one, not at the first
  occurrence. It is therefore not
  idempotent (`Matcher.TrimFeatureNotIdempotent`).
- A reply such as `1,0` is taken, not rejected: `0` becomes Python index -1,
  the last candidate (`Matcher.OneZeroTakesFirstAndLast`).
- A reply with a non-integer raises `ValueError`. A reply with a number
  below `1 - count` together with a positive one raises `IndexError`.
  Neither rejects all candidates (`Matcher.Choose`). A reply whose numbers
  are all below 1, such as "-99", rejects them all.
- `match_lastfm_tracks_for` writes no `match` rows itself: it returns the
  matched tracks. Its only write is blacklisting every survivor, one commit
  per row.
- A now-playing entry of a page is not a `TrackModel` in the parsed list. Its
  scrobble parse returns the "invalid response" error value instead of
  raising, so the track fallback is never tried (`Api.NowPlayingEntryIsError`).
- A scrobble whose `date.uts` is not an integer is not an error. It falls
  back to a plain track and is silently not yielded
  (`Pages.UnreadableDateNotYielded`).
- A generator started past the last page never stops on its own
  (`Pages.PastLastPageNeverEnds`).
- A page whose `recenttracks` parses to an error value, such as an empty
  object, does not raise that error: reading `track` from it raises
  `AttributeError` (`Pages.EmptyContentCrashes`). A page whose track list
  holds an element both parses reject, such as `null`, raises out of the
  page request (`Pages.NullTrackCrashes`).
- `TrackModel.is_now_playing` raises when `@attr` is not an object and `in`
  either rejects it or finds "nowplaying" in it. A response with
  `"@attr": null` therefore parses, and asking whether it is playing raises
  `TypeError` (`Api.NullAttrRaises`).

## Model

| member | source | states |
|---|---|---|
| Store.NullIfEmpty | src/navidrome_fm/db.py:134 | `s or None`: the empty string becomes NULL and any other string is kept |
| Store.AddScrobble | src/navidrome_fm/db.py:116-153 | the result says "new" exactly when the (track id, timestamp) row was absent, and only then is that row appended; the track's id is in the table afterwards; existing track rows are never replaced and at most one is added; a new track row holds the title, the artist, the album or NULL when empty, and the mbid or NULL when empty; matches and blacklist are untouched; the table constraints are preserved |
| Store.AddScrobbleIdempotent | src/navidrome_fm/db.py:127-153 | adding the same scrobble a second time reports it as not new and changes nothing |
| Store.AddScrobbleFromApi | src/navidrome_fm/db.py:116-153 | reading the model's `mbid`, `name`, `artist.name`, `album.name` and `date.uts` raises exactly when one of them fails; otherwise the scrobble they form is stored as `Store.AddScrobble` states |
| Store.IngestEntry | src/navidrome_fm/db.py:116-153 | the JSON object last.fm sends for a scrobble parses to a scrobble model, and ingesting that model stores exactly the scrobble the JSON encodes |
| Store.AddKnownScrobble | src/navidrome_fm/db.py:139-153 | a scrobble already stored in a valid database leaves the database as it is and is reported as not new |
| Store.InsertLink | src/navidrome_fm/db.py:93-110 | a plain insert into a table keyed by the (trackid, navidromeid) pair fails with a duplicate-key error exactly when the pair is present, and succeeds exactly when the pair is absent and the trackid references a stored track |
| Store.SaveMatch | src/navidrome_fm/db.py:232-244 | the insert succeeds exactly when the pair is new and the last.fm id is a stored track; it then adds exactly that pair to `match` and keeps the constraints; a failure is a duplicate exactly when the pair was already there |
| Store.BlacklistMatch | src/navidrome_fm/db.py:246-258 | the same for `blacklist`: success exactly when not yet blacklisted and the track is stored, and then only that pair is added |
| Store.IsBlacklisted | src/navidrome_fm/db.py:260-269 | the query returns a row exactly when the (last.fm id, Navidrome id) pair is in `blacklist` |
| Store.BlacklistThenQuery | src/navidrome_fm/db.py:246-269 | after a successful blacklisting, `is_blacklisted` holds for the pair and blacklisting it again raises a duplicate-key error |
| Store.SaveMatchTwice | src/navidrome_fm/db.py:232-244 | saving the same match twice raises a duplicate-key error the second time |
| Store.IterUnmatched | src/navidrome_fm/db.py:271-282 | a library track is yielded exactly when no `match` row names its id, as many times as it occurs in the library |
| Store.SavedMatchLeavesUnmatched | src/navidrome_fm/db.py:271-282 | after saving a match for a Navidrome track it is no longer yielded, and whether any track with another id is yielded does not change |
| Store.GetUserOrOnly | src/navidrome_fm/db.py:211-230 | None exactly when no user passes the optional name filter or two do; otherwise the one user that passes |
| Store.CountEligible | src/navidrome_fm/db.py:218-230 | the filtered user list is empty exactly when no user passes, has two or more exactly when two positions pass, and when it has one that one is every passing user |
| Playcounts.LastPlayed | src/navidrome_fm/db.py:302 | `MAX(scrobble.timestamp)` of a group is the timestamp of one of its scrobbles and no smaller than any of them |
| Playcounts.Counted | src/navidrome_fm/db.py:301-306 | the grouped subquery has one row per Navidrome id with a matched scrobble; its count is the number of that id's scrobbles and its timestamp is their maximum |
| Playcounts.Upsert | src/navidrome_fm/db.py:292-315 | the upsert leaves a row for every group; a written group holds exactly its count and date; afterwards no group is behind (lower count or earlier date); every row of another user, item type or unwritten item is unchanged |
| Playcounts.CommittedRows | src/navidrome_fm/db.py:292-316 | for the rows `RETURNING` reports: each is the row the table then holds, every row not reported keeps its value, and the upsert adds a row only for a reported change, because a group with no row is always written |
| Playcounts.UpdatePlaycounts | src/navidrome_fm/db.py:284-333 | the reported changes are exactly the written groups with their new values; the update is committed exactly when something changed and the reply lower-cases to "y"; otherwise the annotations are unchanged; after a commit every change is what the table holds, no group is behind, every other row is untouched and the only rows added are those of reported changes |
| Playcounts.UpdateIsIdempotent | src/navidrome_fm/db.py:308-320 | after a committed update, a second update over the same scrobbles reports no change and leaves the annotations as they are |
| Playcounts.OverwriteCanLowerCount | src/navidrome_fm/db.py:308-311 | an existing row whose date is behind is overwritten in both columns, so a stored count of 10 becomes 1 |
| Playcounts.NullRowIsKept | src/navidrome_fm/db.py:310-311 | a row whose count and date are both NULL is never overwritten, since both comparisons are false |
| Playcounts.PlaysAppend | src/navidrome_fm/db.py:302-305 | a scrobble appended to the table joins, at the end, the group of every Navidrome id its track is matched to |
| Playcounts.NewScrobbleAddsOnePlay | src/navidrome_fm/db.py:301-306 | a new scrobble of a matched track raises that group's count by one and moves its last play to the later of the two times |
| Gestalt.LongestMatch | src/navidrome_fm/db.py:414 | `find_longest_match()` returns a real common block of the two strings |
| Gestalt.LongestMatchIsLongest | src/navidrome_fm/db.py:414 | no common block is longer, and among the longest ones none starts earlier in the first string, or at the same place there and earlier in the second |
| Gestalt.LongestMatchSize | src/navidrome_fm/db.py:414 | the size is at most either length and is the size of some common block |
| Gestalt.LongestSelf | src/navidrome_fm/db.py:414 | a string's longest block against itself is the whole string |
| Gestalt.MatchedTotal | src/navidrome_fm/db.py:433 | the matching blocks together cover at most the length of either string |
| Gestalt.Ratio | src/navidrome_fm/db.py:433 | `ratio()` lies between 0 and 1 and is 1 for two empty strings |
| Gestalt.MatchedSelf | src/navidrome_fm/db.py:433 | a string matches itself completely: the blocks cover all of it |
| Gestalt.RatioSelf | src/navidrome_fm/db.py:403-405 | a string compared with itself has ratio 1 |
| Ranking.SortDesc | src/navidrome_fm/db.py:434-436 | the sort returns a permutation of its input, descending by ratio, with the elements of each ratio in their input order |
| Ranking.SortFilterCommute | src/navidrome_fm/db.py:434-445 | filtering the sorted list is the same as sorting the filtered list |
| Ranking.AboveThresholdIsPrefix | src/navidrome_fm/db.py:449-453 | in a descending list, the elements above a threshold form a prefix |
| Text.Split | src/navidrome_fm/db.py:467 | `str.split(",")` gives at least one piece, no piece holds a comma, and joining the pieces with commas gives the input back |
| Text.SplitJoin | src/navidrome_fm/api.py:46 | splitting a comma-joined non-empty list of comma-free pieces gives the list back |
| Text.IntToStringRoundTrip | src/navidrome_fm/db.py:467 | `int(str(n)) == n` for every integer |
| Text.ParseIntPadded | src/navidrome_fm/db.py:467 | `int()` reads a number surrounded by ASCII white space as the number, so the reply "1, 2" reads as 1 and 2 |
| Text.LastOccurrence | src/navidrome_fm/db.py:380-381 | the greedy `(.*)` group ends at an occurrence of the marker after which there is none; absent exactly when the marker does not occur |
| Matcher.CutAtLast | src/navidrome_fm/db.py:380 | on one line, the result is the prefix before the last occurrence of the marker, or the whole text when there is none; a line break before the last character leaves the text alone |
| Matcher.CutKeepsFinalBreak | src/navidrome_fm/db.py:380 | a final line break is kept (`$` matches before it) and the line before it is cut as usual |
| Matcher.TrimFeature | src/navidrome_fm/db.py:378-382 | trimming never lengthens a text, and on one line it returns a prefix |
| Matcher.TrimFeatureUnchanged | src/navidrome_fm/db.py:378-382 | a one-line text is unchanged exactly when it contains neither "feat. " nor "ft. " |
| Matcher.TrimDropsFeature | src/navidrome_fm/db.py:378-382 | a title followed by "feat. " and a featured artist trims back to the title |
| Matcher.TrimFeatureNotIdempotent | src/navidrome_fm/db.py:378-382 | with two "feat. " markers, one trim removes only the last and a second trim removes the other |
| Matcher.FieldRatio | src/navidrome_fm/db.py:404 | a field ratio lies between 0 and 1 |
| Matcher.FieldRatioSame | src/navidrome_fm/db.py:404 | fields equal up to case have ratio 1 |
| Matcher.EnoughOverlap | src/navidrome_fm/db.py:407-417 | holds exactly when each of the three field pairs, lower-cased, shares a common run at least as long as the shorter field or `min_overlap`, whichever is less; the block `find_longest_match()` finds stands for every common run |
| Matcher.MinMatchRatio | src/navidrome_fm/db.py:397-405 | `min_match_ratio` is at most each of the three field ratios (trimmed title, trimmed artist, album or "") and equal to one of them |
| Matcher.AggregateRatio | src/navidrome_fm/db.py:384-395 | `matcher_for(...).ratio()` lies between 0 and 1 |
| Matcher.AggregateRatioSame | src/navidrome_fm/db.py:384-395 | tracks whose trimmed and lower-cased concatenations coincide have aggregate ratio 1 |
| Matcher.MbidMatches | src/navidrome_fm/db.py:349-355 | the first tier finds exactly the stored tracks whose non-NULL MusicBrainz id equals the Navidrome track's |
| Matcher.ExactMatches | src/navidrome_fm/db.py:360-367 | the second tier finds exactly the stored tracks with the same title and artist and a non-NULL album equal up to case |
| Matcher.AsCandidate | src/navidrome_fm/db.py:421 | a fuzzy candidate keeps id, title, artist and album text, turns an empty album into NULL and drops the MusicBrainz id |
| Matcher.Candidates | src/navidrome_fm/db.py:420-429 | every candidate is a rebuilt stored track sharing the title, the artist or a non-NULL album, and every such track is a candidate |
| Matcher.Ranked | src/navidrome_fm/db.py:432-436 | the ranking is a descending permutation of the candidates paired with their aggregate ratios |
| Matcher.Survivors | src/navidrome_fm/db.py:439-445 | a ranked candidate survives exactly when its lowest field ratio exceeds `min_ratio_each`, every field overlaps enough and the pair is not blacklisted |
| Matcher.Acceptable | src/navidrome_fm/db.py:449-453 | a survivor is accepted without asking exactly when its ratio exceeds `min_ratio_all` |
| Matcher.ParseAll | src/navidrome_fm/db.py:467 | `[int(v) for v in pieces]` succeeds exactly when every piece parses, and then holds each piece's value in order |
| Matcher.ParseChoicesRoundTrip | src/navidrome_fm/db.py:467 | numbers typed with commas between them are read back as typed |
| Matcher.PyIndex | src/navidrome_fm/db.py:472 | Python indexing succeeds exactly for indices from `-len` to `len - 1`, and a negative index counts from the end |
| Matcher.PickAll | src/navidrome_fm/db.py:471-473 | the picks exist exactly when every `c - 1` is a valid Python index, one pick per number, in the order typed |
| Matcher.Choose | src/navidrome_fm/db.py:464-476 | an empty reply skips; a non-integer raises; a list with no positive number or one above the candidate count rejects all; otherwise the numbered candidates are taken, or an index error is raised when some number is below `1 - count`; never an integrity error |
| Matcher.OneZeroTakesFirstAndLast | src/navidrome_fm/db.py:468-473 | the reply "1,0" takes the first and the last candidate |
| Matcher.ZeroRejectsAll | src/navidrome_fm/db.py:468-476 | the reply "0" rejects every candidate |
| Matcher.BlacklistAll | src/navidrome_fm/db.py:475-476 | when every insert succeeds, the blacklist grows by exactly the pairs of the given candidates with the Navidrome track |
| Matcher.BlacklistAllSucceeds | src/navidrome_fm/db.py:475-476 | the inserts all succeed when the candidates have distinct ids, are stored and are not yet blacklisted |
| Matcher.Ask | src/navidrome_fm/db.py:458-476 | a valid choice returns exactly the chosen candidates, one per typed number, in order; a malformed reply raises its exception, and any exception needs a non-empty reply; a match returns some of the survivors; skipping is exactly the empty reply and writes nothing; the only write is blacklisting every survivor, with no match; an integrity error needs a refused blacklist insert |
| Matcher.Fuzzy | src/navidrome_fm/db.py:419-482 | no survivor gives no match and no write; any accepted survivor gives exactly the accepted list; without interaction nothing is written or raised; "choice required" means survivors but none accepted, and no interaction or an empty reply; with survivors but none accepted, a valid interactive choice gives exactly the chosen candidates |
| Matcher.MatchLastFMTracksFor | src/navidrome_fm/db.py:335-482 | a MusicBrainz hit is taken whole; otherwise an exact hit; without fuzzy matching nothing else; with fuzzy matching, the survivors above `min_ratio_all` when there are any, else the candidates the operator validly chose; fuzzy matches are survivors only; non-matches return no tracks; nothing is written or raised unless interactive; the only write is blacklisting every survivor |
| Matcher.RankedEntries | src/navidrome_fm/db.py:432-436 | every ranked entry is a candidate paired with its own aggregate ratio |
| Matcher.SurvivorsAreRanked | src/navidrome_fm/db.py:434-445 | the survivors are the ranking of the candidates that pass the floors, in descending order |
| Matcher.AcceptedArePrefix | src/navidrome_fm/db.py:447-455 | the candidates accepted without asking are a prefix of the survivors shown to the operator |
| Matcher.FullThresholdNeverAccepts | src/navidrome_fm/db.py:449-453 | with `min_ratio_all` at 1 or above nothing is accepted without asking |
| Matcher.CandidateRanked | src/navidrome_fm/db.py:420-436 | every stored track that shares a field is ranked |
| Matcher.SameFieldsPass | src/navidrome_fm/db.py:397-417 | equal trimmed title, trimmed artist and album pass every field floor and the aggregate threshold |
| Matcher.SameFieldsAccepted | src/navidrome_fm/db.py:419-455 | a stored track with the Navidrome track's title, artist and album text, not blacklisted, is accepted without asking; with no album it is not an exact hit |
| Matcher.CandidatesDistinct | src/navidrome_fm/db.py:420-429 | the candidates of a valid table have distinct ids |
| Matcher.SurvivorsInTable | src/navidrome_fm/db.py:439-445 | every survivor is a stored track not blacklisted for this Navidrome track |
| Matcher.RejectAllSucceeds | src/navidrome_fm/db.py:474-476 | on a valid database, blacklisting every survivor never fails |
| Matcher.IntegrityNeverRaised | src/navidrome_fm/db.py:335-482 | on a valid database the matcher raises only for the operator's typing, never an integrity error |
| Matcher.NoneSurvivesRejection | src/navidrome_fm/db.py:439-445 | once every survivor is blacklisted, none survives |
| Matcher.RejectAllIsFinal | src/navidrome_fm/db.py:474-482 | after a reject-all, the same track asked about again, with any answer, finds no match and asks nothing |
| Api.ParseFields | src/navidrome_fm/api.py:111-112 | the comprehension raises exactly when some present field's parser raises; otherwise it has one entry per present model field, each the parser's result |
| Api.FromResponse | src/navidrome_fm/api.py:84-119 | an error response becomes a `LastFMAPIError`; a missing required field is the "invalid response" error; an exception escapes exactly when a present field's parser raises; a model is built exactly when every present field parses to a value; a field parsed to None gives the "failed to parse" error; a built model holds the class, `@attr`, `#text` and the parsed fields |
| Api.ErrorFromResponse | src/navidrome_fm/api.py:127-138 | `LastFMAPIError.from_response` keeps the error and message, gives the "failed to parse" error when either is null, and gives the "invalid response" error when either is missing |
| Api.In | src/navidrome_fm/api.py:84-106 | `in` raises exactly when the value is not an object, a string or a list; on a string it is the substring test |
| Api.FromNonObject | src/navidrome_fm/api.py:84-119 | `from_response` on a value that is not an object: a number, boolean or null raises; a string or list gives the "invalid response" error exactly when it does not look like an error, holds neither `@attr` nor `#text` and lacks a required field; whenever a model field occurs in it, it raises or gives that error; a model built from it has no fields |
| Api.ErrorOfNonObjectRaises | src/navidrome_fm/api.py:84-119 | `LastFMAPIError.from_response` raises on a string or list holding both "error" and "message": either a `pop` or `res["error"]` fails on it |
| Api.Iterate | src/navidrome_fm/api.py:347 | `for v in value` raises exactly when the value is not a list, string or object; a list gives its items, a string its characters as one-character strings, an object each of its keys once |
| Api.ParseEach | src/navidrome_fm/api.py:346-356 | the loop raises exactly when some element's parse raises; otherwise it keeps one entry per element, each that element's parse, in order |
| Api.Consumed | src/navidrome_fm/api.py:89-90 | what the scrobble attempt leaves of an element: the same keys without `@attr` and `#text`, and each nested artist, album, date and image object without its own `@attr` and `#text` |
| Api.PageTracks | src/navidrome_fm/api.py:299-336 | `res.track` gives a list exactly when the content model is built, and then it is the parsed `track` field; a content parse that raises, or that returns an error value (which has no `track`), raises |
| Api.EmptyContentRaises | src/navidrome_fm/api.py:299-302 | an empty `recenttracks` object parses to the content model's invalid-response error value, and reading `track` from it raises |
| Api.NullTrackRaises | src/navidrome_fm/api.py:343-353 | a `null` element raises in the scrobble parse and again in the fallback track parse, so the content parse raises |
| Api.ParseEntry | src/navidrome_fm/api.py:348-353 | a scrobble parse that does not raise is kept; a built entry is a scrobble or a track; a value that is not an object, string or list raises |
| Api.ContentField | src/navidrome_fm/api.py:343-357 | for `track`, the iterated value becomes a parsed list of the same length, each entry the scrobble parse or its track fallback; it raises exactly when the value cannot be iterated or some element's parse raises |
| Api.TouchedKeepsRaising | src/navidrome_fm/api.py:175-183 | a track field parse raises on what the scrobble attempt left of it exactly when it raises on the original |
| Api.FallbackParsesConsumed | src/navidrome_fm/api.py:350-353 | when the scrobble parse of an object raises, the entry is the track parse of what that attempt left |
| Api.FallbackOnlyAfterDate | src/navidrome_fm/api.py:348-353 | the track fallback of an object returns only when the scrobble attempt raised on `date` and no track field raises |
| Api.FallbackLosesArtistName | src/navidrome_fm/api.py:84-90 | in a track built by the fallback, an artist given as an object has lost its `#text`, so its `name` is None |
| Api.NonObjectEntryNeverBuilt | src/navidrome_fm/api.py:346-353 | an element that is not an object never becomes a track or scrobble model |
| Api.SingleObjectTrackIsLost | src/navidrome_fm/api.py:343-357 | a `track` given as one object, not a list, is iterated by its keys, so every entry is an error value |
| Api.StringArtistIsError | src/navidrome_fm/api.py:176-177 | an artist given as a string that holds neither `@attr`, `#text` nor `mbid`, and not both `error` and `message`, becomes the "invalid response" error value of ArtistModel |
| Api.NowPlayingEntryIsError | src/navidrome_fm/api.py:348-353 | an element without `date` gets the "invalid response" error value from the scrobble parse, not a track |
| Api.ExtraKeysIgnored | src/navidrome_fm/api.py:93-112 | a key outside the model's fields and the error and special keys does not change what `from_response` returns |
| Api.ParseFieldsIgnoresExtraKey | src/navidrome_fm/api.py:112 | a key outside the model's fields does not change the parsed fields |
| Api.UnreadableDateRaises | src/navidrome_fm/api.py:261-264 | a date whose `uts` is not an integer makes `int()` raise |
| Api.UnreadableDateBecomesTrack | src/navidrome_fm/api.py:343-357 | a scrobble whose `date.uts` is not an integer is parsed, through the fallback, as a plain track model |
| Api.ScrobbleRecord | src/navidrome_fm/db.py:134-146 | the record is read exactly when `mbid`, `name`, `artist.name`, `album.name` and `date.uts` all are, and holds those values |
| Api.ModelTrackId | src/navidrome_fm/api.py:164-172 | `track_id` raises exactly when `mbid`, `name`, `artist.name` or `album.name` fails, never for the date; on a scrobble it is the id of the record the database stores |
| Api.NamelessArtistRaises | src/navidrome_fm/api.py:207-210 | an artist model without `#text` fails the assertion in `name`, so the scrobble's record raises |
| Api.EntryRoundTrip | src/navidrome_fm/api.py:186-197 | the JSON object of a scrobble parses to a scrobble model whose record is that scrobble |
| Api.SameConcatenationSameId | src/navidrome_fm/api.py:164-172 | tracks whose mbid, name, artist and album concatenate to the same text get the same id, whatever the play time |
| Api.FieldBoundariesAreLost | src/navidrome_fm/api.py:171 | title "ab" by "c" and title "a" by "bc" get the same id, since the fields are joined without separators |
| Api.IsNowPlaying | src/navidrome_fm/api.py:160-162 | true exactly when the value is an object whose `nowplaying` is the string "true"; raises exactly when it is not an object and `in` rejects it or finds "nowplaying" in it; on a string, raises exactly when "nowplaying" is a substring; always raises on null |
| Api.NowPlayingFromResponse | src/navidrome_fm/api.py:160-162 | a built track is now playing exactly when its response carried an `@attr` object whose `nowplaying` is the string "true"; without `@attr` it is not playing; it raises exactly when `@attr` is not an object and `in` rejects it or finds "nowplaying" in it |
| Api.NullAttrRaises | src/navidrome_fm/api.py:160-162 | a response with `"@attr": null` builds a track, and asking whether that track is now playing raises |
| Request.Parameters | src/navidrome_fm/api.py:45-51 | the parameters are the keyword arguments plus `method`, `api_key` and `format`; those three hold the method name, the key and "json"; every other key holds its value rendered with `str()`, a list joined by commas |
| Request.ListArgumentRoundTrip | src/navidrome_fm/api.py:46 | a non-empty list argument whose items render without commas splits back into its items' renderings |
| Request.IntArgumentRoundTrip | src/navidrome_fm/api.py:46 | an integer argument reads back as the same integer |
| Request.EmptyListIsAmbiguous | src/navidrome_fm/api.py:46 | an empty list and a list holding one empty string are sent alike, as "" |
| Request.PageRequest | src/navidrome_fm/api.py:393-403 | a page request carries exactly `user`, `extended`, `page`, `method`, `api_key` and `format`, with the asked user, "0" and the page number |
| Request.InfoRequest | src/navidrome_fm/api.py:380-381 | an info request carries exactly `user` and the three fixed parameters |
| Pages.PageScrobbles | src/navidrome_fm/api.py:407-409 | a page yields exactly its entries that are scrobble models |
| Pages.Walk | src/navidrome_fm/api.py:405-415 | the generator yields nothing but scrobble models, and the first page's scrobbles come first |
| Pages.ReadPage | src/navidrome_fm/api.py:405-407 | a page response ends the generator with an exception exactly when its `recenttracks` gives no track list; otherwise the list is the parsed `track` field, with the page attributes as given |
| Pages.UnreadablePageEnds | src/navidrome_fm/api.py:405-412 | a page that cannot be read ends the generator with its exception, after the earlier page's scrobbles and with nothing of its own |
| Pages.EmptyContentCrashes | src/navidrome_fm/api.py:299-302 | an empty `recenttracks` object ends the generator with a non-API exception and nothing yielded |
| Pages.NullTrackCrashes | src/navidrome_fm/api.py:343-353 | a `null` element in the track list ends the generator with an exception and nothing yielded |
| Pages.WalkFromIsWalk | src/navidrome_fm/api.py:405-413 | carrying the already-yielded scrobbles through the loop is the same as prepending them to the rest of the stream |
| Pages.GetRecentTracks | src/navidrome_fm/api.py:405-415 | the loop yields, and ends, exactly as the page-by-page definition of the generator does: page after page, stopping after the last page, on an API error or on an exception from reading a page |
| Pages.ConsecutivePages | src/navidrome_fm/api.py:405-412 | when the pages from the start to the last come back in order, all their scrobbles are yielded page by page and the generator returns |
| Pages.MoreRequestsExtend | src/navidrome_fm/api.py:406-412 | consuming more of the generator only extends what it yielded, and once it has ended it yields nothing more |
| Pages.FirstPageError | src/navidrome_fm/api.py:405-415 | an error response for the first page is raised with nothing yielded |
| Pages.PastLastPageNeverEnds | src/navidrome_fm/api.py:410-412 | started past the last page against pages that report their own number, the generator never returns |
| Pages.UnreadableDateNotYielded | src/navidrome_fm/api.py:405-409 | a scrobble whose date cannot be read is in no page's yield |
| Pages.NowPlayingNotYielded | src/navidrome_fm/api.py:343-357 | a now-playing element of a page is never yielded |

## Left out

- Unicode case folding: `str.lower()` is modelled as ASCII lower-casing. That
  is exact for SQLite's NOCASE collation, but not for Python on non-ASCII
  text, where lower-casing can even change a string's length.
- `int()` accepting `_` between digits, non-ASCII digits and non-ASCII
  white space: every ASCII character `str.isspace()` accepts, an optional
  sign and ASCII digits are modelled.
- The `difflib` "autojunk" heuristic, which only applies when the second
  string has 200 or more characters. Ratios are exact rationals, not floats,
  so a ratio within rounding distance of a threshold may compare differently.
- Gestalt.MatchedTotal: states only that the total is bounded by both
  lengths, not that it is the sum of the blocks `get_matching_blocks` lists.
- Matcher.FieldRatio: states only the bounds 0 and 1. Equal fields get 1 in
  `Matcher.FieldRatioSame`. Nothing is proved about unequal fields.
- Matcher.AggregateRatio: the same, with `Matcher.AggregateRatioSame`.
- Api.Iterate: an object's keys are visited in ascending order. Python
  visits them in the order of the document, which a map does not keep.
- Api.ScrobbleRecord: a non-string `mbid`, `name` or `#text` is taken as
  raising. Python formats it with `str()`, and even stores an empty list or
  object as `mbid` as NULL.
- Api.ModelTrackId: the same reading of non-string texts as
  `Api.ScrobbleRecord`.
- Store.AddScrobbleFromApi: when `s.date.uts` raises, the track row is
  already inserted in the open transaction. The model returns only the
  exception.
- Playcounts.UpdatePlaycounts: dates are Unix seconds. The text produced by
  `datetime(..., 'unixepoch')` is not modelled, and an existing date that
  is not a valid date reads as NULL.
- Other columns of `annotation` (rating, starred) and album and artist play
  counts: the statement does not write them.
- The database state after an integrity error inside a reject-all. Earlier
  blacklist inserts are already committed, but the model only reports the
  exception.
- `TrackModel.track_id`'s SHA-256: the hash is a parameter, so the model
  states what follows from equal inputs but assumes nothing about collisions.
- JSON numbers are modelled as integers only; the `Json` type has no float
  case. A float `uts` would go through `int()` and be truncated
  (api.py:264), and a kept raw field would pass the float through.
- The network, the HTTP headers, the base URL and `response`'s status
  logging. A page response is the parameter `fetch`.
- `RecentTracksResponseModel.page` and `total_pages` read `int()` of an
  `@attr` entry and assert it is present. The model takes the two numbers as
  given, so a page whose attributes are missing or not numbers is not
  modelled.
- Pages.GetRecentTracks: the generator can be infinite, so the model
  consumes it for at most a given number of page requests. The stream then
  reports the page still to be fetched.
- Logging, `print` and the prompt text. The operator's reply is a
  parameter.
- `iter_tracks`, the `count_*` queries, `get_info` and the CLI.
