# Sound Circle track catalog, in Dafny

This project models the track catalog of the Sound Circle backend and proves properties of the model. It covers:

- **The Track schema** (`TrackModel`):
  - the trim setters;
  - the http(s) URL validator;
  - the dedupe key, the artist and title lower-cased and trimmed, joined by `" — "`;
  - the `setKeyFromParts` pre-validate hook;
  - the `normalizeGenres` pre-save hook.
- **The metadata service** (`MusicService`):
  - `encodeURIComponent` over UTF-8;
  - the iTunes search URL;
  - the artwork rewrite to 600×600;
  - `enrichTrack`.
- **The tracks controller** (`TracksController`):
  - `clean` and the controller's own key;
  - page and limit parsing;
  - the search filter;
  - the collection as a `Catalog` class with the GET list, GET one, POST, PUT and DELETE routes.
- **The playlist routes of the users controller** (`UsersController`): a `User` class whose `Add` and `Remove` methods update its `playlist` field, and the GET, POST and DELETE routes on `/users/:userId/playlist`.

`JsText` holds the JavaScript pieces the others share:

- a value that is a string or null/undefined (`Val`);
- truthiness, `??` and `||`;
- `String.prototype.trim` over the exact ECMAScript whitespace set;
- lower-casing;
- substring search;
- filtering a sequence.

How the outside world is modelled:

- **Store:** the Mongo collection is a map from id to track, plus the order of insertion, which stands for `createdAt`. The unique index on `key` is an invariant of `Catalog` (`Catalog.Valid`).
- **Users:** the user a route loads is passed in, and is null when there is none.
- **The `ENABLE_ENRICHMENT` switch:** a parameter.
- **The iTunes response:** the first search result, or `None` when the fetch failed or found nothing, is also a parameter. The URL the service would request is returned so that contracts can speak about it.

## Model

| member | source | states |
|---|---|---|
| JsText.TrimIdempotent | models/Track.js:9-10 | trimming twice is trimming once, so a trim setter applied to stored values changes nothing |
| JsText.TrimPadding | models/Track.js:42-45 | whitespace padding on either side of a string does not change its trim |
| JsText.Contains | controllers/tracks.controller.js:22-23 | the substring test holds exactly when the pattern occurs at some position |
| JsText.Without | controllers/users.js:99 | the filtered playlist holds no copy of the id, and every other id exactly as often as before |
| JsText.WithoutConcat | controllers/users.js:99 | filtering a concatenation is the concatenation of the filtered parts, so order is kept |
| JsText.WithoutNoDuplicates | controllers/users.js:99 | filtering keeps a duplicate-free playlist duplicate-free |
| TrackModel.IsHttpUrl | models/Track.js:4 | a URL passes exactly when it is falsy or starts with `http://` or `https://` in any case |
| TrackModel.KeyPartIsNormal | models/Track.js:42-45 | each part of a key is trimmed and lower-case |
| TrackModel.KeyOfIgnoresCaseAndPadding | models/Track.js:42-45 | artists and titles that differ only in case and outer whitespace get the same key |
| TrackModel.KeyOfNormalizedParts | models/Track.js:42-45 | keying already-normalised parts gives the same key |
| TrackModel.KeyOfOfNormal | models/Track.js:42-45 | for trimmed lower-case parts the key is artist, separator, title |
| TrackModel.KeyOfTrimmedFields | models/Track.js:9-10 | the trim setters on artist and title do not change the key derived from them |
| TrackModel.NormalizedGenresClean | models/Track.js:58-65 | normalised genres are duplicate-free, non-empty, trimmed and lower-case; every non-empty input genre is represented and nothing else appears |
| TrackModel.NormalizedGenresSnoc | models/Track.js:61-64 | appending a genre appends its normal form unless it is empty or already present |
| TrackModel.NormalizedGenresIdempotent | models/Track.js:58-65 | running the hook on normalised genres changes nothing |
| TrackModel.TrackDocument.constructor | models/Track.js:6-37 | a new document holds the cast payload: string paths trimmed, `genre` dropped, counters at 0 |
| TrackModel.TrackDocument.SetKeyFromParts | models/Track.js:48-55 | the key is re-derived from artist and title when either was modified or the key is empty, and kept otherwise |
| TrackModel.TrackDocument.NormalizeGenres | models/Track.js:58-68 | genres become their normalised form and a truthy primary genre is trimmed |
| TrackModel.TrackDocument.TrimPrimaryGenre | models/Track.js:66 | a truthy primary genre is trimmed and a falsy one left alone |
| TrackModel.NewTrackKey | models/Track.js:48-55 | a track created with an artist and a title stores their key whatever key the payload carried, with no genres and zero counters |
| TrackModel.NewTrackValidation | models/Track.js:9-22 | a new track validates exactly when its trimmed title and artist are non-empty and each trimmed URL is empty or http(s); a valid one has its key in sync |
| MusicService.EncodeUriComponent | services/music.service.js:37 | the encoded term has only unreserved characters and percent escapes, and an all-unreserved term is unchanged |
| MusicService.DecodeOfEncode | services/music.service.js:37 | decoding the encoded term gives the term back |
| MusicService.ToQueryParams | services/music.service.js:36-40 | the search URL's parameters are `media=music`, `limit=1` and the term, and the term decodes to the trimmed "artist title" |
| MusicService.SegmentEndSound | services/music.service.js:46 | a reported size segment is a slash, digits, `x`, the same digits and `bb.` |
| MusicService.SegmentEndComplete | services/music.service.js:46 | every such segment is reported, with its end |
| MusicService.UnequalDimensionsNotMatched | services/music.service.js:46 | a segment whose two dimensions differ is not matched |
| MusicService.UpsizeRewritesFirst | services/music.service.js:46 | only the leftmost size segment is replaced by `/600x600bb.` |
| MusicService.UpsizeNoSegment | services/music.service.js:46 | a URL with no size segment is unchanged |
| MusicService.UpsizeIdempotent | services/music.service.js:43-47 | upsizing an upsized URL changes nothing |
| MusicService.UpsizeArtwork | services/music.service.js:43-47 | a falsy URL becomes null and a truthy one stays non-empty |
| MusicService.EnrichTrack | services/music.service.js:49-59 | a lookup is made exactly when the cover or the clip is missing and both title and artist are given, at the search URL; otherwise or on a failed fetch, nothing is returned; fields supplied are never filled |
| MusicService.EnrichFromResult | services/music.service.js:61-68 | the filled cover is the upsized 100px or else the 60px artwork; the clip is the preview; the genre is the primary genre name; the source is the track or else the collection view |
| TracksController.Collapse | controllers/tracks.controller.js:16 | collapsing whitespace never lengthens, keeps empty and non-empty apart, keeps the leading and trailing whitespace status, and leaves no two spaces in a row |
| TracksController.CollapseKeepsText | controllers/tracks.controller.js:16 | collapsing removes only whitespace |
| TracksController.CollapseConcat | controllers/tracks.controller.js:16 | text that ends in a non-whitespace character collapses on its own, whatever follows it |
| TracksController.CollapseRun | controllers/tracks.controller.js:16 | a whitespace run of any length between non-whitespace text becomes exactly one space |
| TracksController.CleanIsClean | controllers/tracks.controller.js:16 | a cleaned value is trimmed, lower-case and single-spaced, and null cleans to "" |
| TracksController.CleanKeepsText | controllers/tracks.controller.js:16 | cleaning keeps every non-space character, lower-cased |
| TracksController.CleanIdempotent | controllers/tracks.controller.js:16 | cleaning twice is cleaning once |
| TracksController.LocalKeyOfCleanParts | controllers/tracks.controller.js:17-18 | the controller's key of cleaned parts equals the key of the raw parts |
| TracksController.PostKeyIgnoresClip | controllers/tracks.controller.js:64 | POST uses the model's key, which ignores the clip URL |
| TracksController.ParseIntOfDecimal | controllers/tracks.controller.js:32-33 | parsing the decimal form of a natural number gives it back |
| TracksController.ClampPage | controllers/tracks.controller.js:31-32 | the page is at least 1: the parsed page if positive, else 1 |
| TracksController.ClampLimit | controllers/tracks.controller.js:31-33 | the limit is in 1..50: 10 when missing, unparsable or zero, else the parsed value clamped |
| TracksController.LiteralOfEscape | controllers/tracks.controller.js:22 | the escaped query, read as a regular expression, stands for the query text literally |
| TracksController.BuildFilterMatches | controllers/tracks.controller.js:20-24 | a track matches exactly when the query is blank or its trimmed text occurs, ignoring case, in the title or the artist |
| TracksController.NewestFirst | controllers/tracks.controller.js:37 | the listing holds exactly the stored matches |
| TracksController.NewestFirstOrdered | controllers/tracks.controller.js:37 | each listed track was created after every track listed after it |
| TracksController.OffsetIsProduct | controllers/tracks.controller.js:37 | the page offset counted page by page is `(p - 1) * l` |
| TracksController.PageOfSlot | controllers/tracks.controller.js:37 | every position lies on one page at a slot below the page size |
| TracksController.Page | controllers/tracks.controller.js:37 | a page holds at most `l` items, the ones after the offset, and is empty past the end |
| TracksController.PostPayloadPrecedence | controllers/tracks.controller.js:72-80 | a caller's value, even "", wins over the provider's; the provider fills only what is missing and never the source URL; the key is the model's |
| TracksController.EmptyCoverLooksUpButIsKept | controllers/tracks.controller.js:69-76 | an empty cover triggers the lookup and is still the value stored |
| TracksController.AsWrittenKeepsKey | controllers/tracks.controller.js:97-100 | as written, an update keeps the old key, which is in sync only if the new parts key alike |
| TracksController.AsWrittenStaleKeyExample | controllers/tracks.controller.js:97-100 | renaming "joni — blue" to "river" leaves the key "joni — blue", out of sync |
| TracksController.UpdatedTrackValid | controllers/tracks.controller.js:93-100 | a valid update of a valid track is valid with its key in sync, and only the updated fields change |
| TracksController.UpdateIgnoresGenreAndOthers | controllers/tracks.controller.js:93-95 | fields outside the allowed list, and `genre`, do not affect an update |
| TracksController.ConsistentInsert | models/Track.js:13 | inserting a valid track whose key no track holds keeps keys unique and the store consistent |
| TracksController.ConsistentReplace | models/Track.js:13 | replacing a track with one whose key no other track holds keeps the store consistent |
| TracksController.ConsistentRemove | controllers/tracks.controller.js:112 | removing a track keeps the store consistent |
| TracksController.Whitelist | controllers/tracks.controller.js:93-95 | the loop's updates are exactly the allowed fields present in the body, with their values |
| TracksController.Catalog.List | controllers/tracks.controller.js:29-41 | the listing is the clamped page of the matches newest first, the total counts all matches, and `hasNext` holds exactly when the next page is non-empty |
| TracksController.HasNextIsNextPage | controllers/tracks.controller.js:41 | the response's test `page * limit < total` holds exactly when the next page has items |
| TracksController.Catalog.ListCoversEveryMatch | controllers/tracks.controller.js:31-41 | every match appears on the page its position gives |
| TracksController.Catalog.Get | controllers/tracks.controller.js:48-55 | a stored id gives 200 and its track, else 404 |
| TracksController.Catalog.Create | models/Track.js:48-68 | creation fails on validation exactly when the new track is invalid, and on a duplicate key exactly when another track holds its key; otherwise the new track is stored under a fresh id and the invariant kept |
| TracksController.Catalog.Post | controllers/tracks.controller.js:59-88 | 400 without title or artist; the existing track with that key returns 201 and nothing changes; otherwise the lookup happens as enrichment dictates, and a valid track is stored and returned with 201, an invalid one gives 500; 409 never happens |
| TracksController.Catalog.Update | controllers/tracks.controller.js:91-107 | invalid updated fields give 500; an unknown id gives 404; a key held by another track gives 409; else the track is updated with its key re-derived |
| TracksController.Catalog.Delete | controllers/tracks.controller.js:110-117 | a stored id is removed from the store and the order, with 200; else 404 and nothing changes |
| UsersController.AddedTo | controllers/users.js:77-80 | adding puts the id on the playlist and adds nothing else; an id already present leaves the playlist unchanged, and an absent one goes in front of the old entries |
| UsersController.AddIdempotent | controllers/users.js:78-81 | adding an id twice is adding it once |
| UsersController.AddKeepsNoDuplicates | controllers/users.js:77-80 | adding keeps the playlist duplicate-free |
| UsersController.RemoveUndoesAdd | controllers/users.js:77-99 | removing an id just added to a playlist without it gives the old playlist |
| UsersController.RemoveKeepsOrder | controllers/users.js:99 | removal drops every copy of the id and keeps the other entries in order |
| UsersController.RemoveAbsent | controllers/users.js:99 | removing an absent id changes nothing |
| UsersController.Resolve | controllers/users.js:46 | populating never lengthens the list, and with no dangling ids gives the tracks in playlist order |
| UsersController.ResolveSkipsDangling | controllers/users.js:46 | a dangling id does not show in the populated list |
| UsersController.User.Add | controllers/users.js:77-82 | the playlist becomes the added-to playlist, and the document is saved exactly when the id was absent |
| UsersController.User.Remove | controllers/users.js:99-100 | the playlist becomes the old one without the id |
| UsersController.DraftKeyIgnoresClip | controllers/users.js:69-70 | drafts differing only in clip get the same key, and their lookups differ exactly when the trimmed clips differ, so the second collides on creation |
| UsersController.DraftHitSharesKey | controllers/users.js:69-70 | the lookup compares trimmed title, artist and clip, so a track it finds carries the key a new track from the draft would get, padding or not |
| UsersController.FindOrCreate | controllers/users.js:69-71 | a track matching the trimmed title, artist and clip is reused unchanged; otherwise a track is created exactly when it is valid and its key is free, else nothing changes |
| UsersController.GetPlaylist | controllers/users.js:41-52 | 403 for another user, 404 for an unknown user, else 200 with the populated playlist |
| UsersController.PostPlaylist | controllers/users.js:55-89 | 403, then 400, then the given id or the draft's found or created track (500 when creation fails), then 404 for an unknown user (after any creation), else 201 with the id added in front unless present; the catalog's listing order is unchanged, except that a created track is appended as the newest |
| UsersController.DeletePlaylist | controllers/users.js:92-106 | 403 for another user, 404 for an unknown user, else 200 with every copy of the id removed |

## Left out

- JsText.Lower: case mapping is ASCII-only. The source's `toLowerCase` maps all of Unicode, so keys, genres and search results differ from the source for non-ASCII letters. The regular-expression `i` flag used for the URL check and the search is ASCII-exact for the URL schemes, but not for non-ASCII search text.
- JsText.Val: a request value is a string or null/undefined. Arrays, objects, numbers and booleans from the query string or a JSON body are not modelled. Two consequences: `GET /tracks?q=a&q=b` makes `q` an array, so `q.trim()` throws and the source answers 500 where `Catalog.List` answers 200; and a draft whose title and artist are objects such as `{"$ne": null}` passes the presence check, and Mongoose then reads them as query operators, so the draft lookup reuses any track without a clip, which `DraftQuery` cannot express.
- MusicService.EncodeUriComponent: strings are sequences of Unicode scalar values, not of UTF-16 code units, so a lone surrogate such as `"\ud800"` in a title or artist cannot be represented. On such a string `encodeURIComponent` throws `URIError`, `enrichTrack` rejects, and the source answers POST with 500, where `Catalog.Post` would look the track up, enrich it and create it.
- UsersController.DraftQuery: of Mongoose's casting of filter values, only the `trim` setters are modelled.
- TracksController.Catalog.Update: PUT is modelled with the key re-derived, which is the corrected behaviour. The code as written is `ApplyUpdateAsWritten` (see Findings).
- TracksController.Catalog.List: the sort is by insertion order. Ties between equal `createdAt` timestamps are not modelled.
- TracksController.ClampPage: integers are unbounded. `parseInt` gives a JavaScript double, so a page past 2^53 is rounded in the source but exact here; a page whose skip `(p - 1) * l` the database rejects, or that parses to `Infinity`, makes the source answer 500, while `Catalog.List` answers 200 with an empty page.
- TrackModel.TrackDocument.NormalizeGenres: `genres` is always an array of strings, so the branch for a non-array value and the `String(g || '')` reading of null or non-string entries are not modelled.
- Track ids are natural numbers, so an ill-formed ObjectId in a URL, and the 500 it causes, is not modelled. For the same reason, the `String(...)` comparisons of ids are plain equality.
- The token check, `verifyToken` and its 401, is not modelled. The caller's id is a parameter.
- These failures are left out: database errors, `user.save()` failures, and the unique-index race between a lookup and an insert. The 500 from the catch-all handlers is reached only through the validation and duplicate-key errors the model produces.
- Time and network behaviour of the metadata fetch are left out: the 3.5 s timeout, JSON parsing and the HTTPS request. The fetch is a parameter giving the first search result or none.
- The user routes `GET /users` and `GET /users/:userId` are not part of this model, nor are the auth and sound-byte controllers.
- These schema paths are never set by the modelled routes and are not modelled: `album`, `itunesId`, `deezerId` and the timestamps. The `toJSON` transform is not modelled either.
- POST does not re-check the key after enrichment. `Track.keyOf` always exists in the schema, so the controller's own fallback key (`LocalKeyOf`) is never used. It is modelled, but no route calls it.

## Findings

| source | as written | input that shows it | evidently intended | confidence | as-written member | corrected member |
|---|---|---|---|---|---|---|
| controllers/tracks.controller.js:97-100 | PUT uses `findByIdAndUpdate`, which does not run the `setKeyFromParts` document hook, so a changed title or artist leaves the old key. The key goes stale, and a later POST of the new title no longer finds the track. | track with artist "joni", title "blue" and key "joni — blue"; PUT with body `{ "title": "river" }` | the key follows the new artist and title (models/Track.js:47-55), and an update that collides with another track's key is rejected with 409 | not executed | TracksController.AsWrittenStaleKeyExample | TracksController.Catalog.Update |
