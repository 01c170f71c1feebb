/**
 * The playlist routes of the users controller: GET, POST and DELETE on
 * `/users/:userId/playlist`. A user's playlist is a sequence of track ids,
 * newest first, kept free of duplicates by the add route.
 */

module UsersController {
  import opened JsText
  import opened TrackModel
  import opened TracksController

  // ---------------------------------------------------------------------------
  // Playlist values

  /** The playlist after adding `t`: unchanged if `t` is already on it,
      otherwise `t` in front of the old entries. */
  function AddedTo(playlist: seq<TrackId>, t: TrackId): (r: seq<TrackId>)
    ensures t in r
    ensures forall x :: x in r <==> x in playlist || x == t
    ensures r == playlist || (t !in playlist && r == [t] + playlist)
  {
    if t in playlist then playlist else [t] + playlist
  }

  /** Adding an id twice is adding it once. */
  lemma AddIdempotent(playlist: seq<TrackId>, t: TrackId)
    ensures AddedTo(AddedTo(playlist, t), t) == AddedTo(playlist, t)
  {
  }

  /** Adding keeps a playlist free of duplicates. */
  lemma AddKeepsNoDuplicates(playlist: seq<TrackId>, t: TrackId)
    requires NoDuplicates(playlist)
    ensures NoDuplicates(AddedTo(playlist, t))
  {
    if t !in playlist {
      var r := [t] + playlist;
      forall i, j | 0 <= i < j < |r|
        ensures r[i] != r[j]
      {
        assert r[j] == playlist[j - 1];
        if i > 0 {
          assert r[i] == playlist[i - 1];
        }
      }
    }
  }

  /** Removing an id just added restores a playlist that did not hold it. */
  lemma RemoveUndoesAdd(playlist: seq<TrackId>, t: TrackId)
    requires t !in playlist
    ensures Without(AddedTo(playlist, t), t) == playlist
  {
    WithoutConcat([t], playlist, t);
    WithoutAbsent(playlist, t);
    assert Without([t], t) == [];
  }

  /** Removing drops every copy of the id and keeps the other entries in
      their order: removing from a concatenation removes from each part. */
  lemma RemoveKeepsOrder(front: seq<TrackId>, back: seq<TrackId>, t: TrackId)
    ensures Without(front + back, t) == Without(front, t) + Without(back, t)
    ensures t !in Without(front + back, t)
  {
    WithoutConcat(front, back, t);
  }

  /** Removing an id that is not on the playlist changes nothing. */
  lemma RemoveAbsent(playlist: seq<TrackId>, t: TrackId)
    requires t !in playlist
    ensures Without(playlist, t) == playlist
  {
    WithoutAbsent(playlist, t);
  }

  /** `populate('playlist')`: the tracks the ids name, in playlist order; an
      id with no track behind it is left out. */
  function Resolve(ids: seq<TrackId>, tracks: map<TrackId, Track>): (r: seq<Track>)
    ensures |r| <= |ids|
    ensures (forall id :: id in ids ==> id in tracks) ==> r == TracksOf(ids, tracks)
  {
    if ids == [] then []
    else
      var rest := Resolve(ids[1..], tracks);
      assert forall id :: id in ids[1..] ==> id in ids;
      if ids[0] in tracks then [tracks[ids[0]]] + rest else rest
  }

  /** An id with no track behind it does not show in the populated list. */
  lemma {:induction false} ResolveSkipsDangling(ids: seq<TrackId>, tracks: map<TrackId, Track>, d: TrackId)
    requires d !in tracks
    ensures Resolve(Without(ids, d), tracks) == Resolve(ids, tracks)
  {
    if ids != [] {
      ResolveSkipsDangling(ids[1..], tracks, d);
      WithoutConcat([ids[0]], ids[1..], d);
      assert [ids[0]] + ids[1..] == ids;
      if ids[0] != d {
        assert Without([ids[0]], d) == [ids[0]];
        var w := Without(ids, d);
        assert w == [ids[0]] + Without(ids[1..], d);
        assert w[1..] == Without(ids[1..], d);
      } else {
        assert Without([ids[0]], d) == [];
      }
    }
  }

  // ---------------------------------------------------------------------------
  // The user document

  /** A user document; only its id and its playlist take part here. */
  class User {
    const id: string
    var playlist: seq<TrackId>

    constructor (id: string, playlist: seq<TrackId>)
      ensures this.id == id && this.playlist == playlist
    {
      this.id := id;
      this.playlist := playlist;
    }

    /** Prepend `t` unless the playlist already holds it; `saved` says
        whether the document was written back. */
    method Add(t: TrackId) returns (saved: bool)
      modifies this`playlist
      ensures playlist == AddedTo(old(playlist), t)
      ensures saved <==> t !in old(playlist)
    {
      if t !in playlist {
        playlist := [t] + playlist;
        return true;
      }
      return false;
    }

    /** Keep every entry other than `t`. */
    method Remove(t: TrackId)
      modifies this`playlist
      ensures playlist == Without(old(playlist), t)
    {
      playlist := Without(playlist, t);
    }
  }

  // ---------------------------------------------------------------------------
  // Routes

  /** The fields of a draft track in the add request. */
  datatype Draft = Draft(title: Val, artist: Val, coverArtUrl: Val, soundClipUrl: Val, sourceUrl: Val, genre: Val)

  /** The add request's body: a track id, a draft track, both or neither. */
  datatype PlaylistBody = PlaylistBody(trackId: Option<TrackId>, track: Option<Draft>)

  /** What a draft hands to `Track.create`: no key, so the pre-validate hook
      derives it. */
  function DraftPayload(d: Draft): Payload {
    Payload(d.title, d.artist, Null, d.coverArtUrl, d.soundClipUrl, d.sourceUrl, d.genre)
  }

  /** The lookup a draft makes: title, artist and clip, a missing clip
      looking for null. Mongoose casts filter values through the schema's
      `trim` setters, so the lookup compares trimmed values. */
  function DraftQuery(d: Draft): Query {
    ByFields(TrimVal(d.title), TrimVal(d.artist), TrimVal(Coalesce(d.soundClipUrl, Null)))
  }

  /** A stored track the draft lookup finds has the very key a new track
      made from the draft would get: padding around the draft's title or
      artist neither hides the stored track nor changes the key. */
  lemma DraftHitSharesKey(d: Draft, t: Track)
    requires d.title.Str? && d.artist.Str?
    requires KeyInSync(t) && Hit(DraftQuery(d), t)
    ensures t.key == NewTrack(DraftPayload(d)).key
  {
    NewTrackKey(DraftPayload(d));
    KeyOfTrimmedFields(d.artist, d.title);
  }

  /** Two drafts with the same title and artist get the same key whatever
      their clips; so a draft whose trimmed clip differs from a stored track's is not
      found by the draft lookup and then collides with it on creation. */
  lemma DraftKeyIgnoresClip(d1: Draft, d2: Draft)
    requires d1.title == d2.title && d1.artist == d2.artist
    requires d1.title.Str? && d1.artist.Str?
    ensures NewTrack(DraftPayload(d1)).key == NewTrack(DraftPayload(d2)).key
    ensures DraftQuery(d1) != DraftQuery(d2) <==> TrimVal(d1.soundClipUrl) != TrimVal(d2.soundClipUrl)
  {
    NewTrackKey(DraftPayload(d1));
    NewTrackKey(DraftPayload(d2));
  }

  /** The draft path's find-or-create: the track the lookup finds, or a
      new one; `None` when the creation fails. */
  method FindOrCreate(catalog: Catalog, d: Draft) returns (r: Option<TrackId>)
    requires catalog.Valid()
    modifies catalog
    ensures catalog.Valid()
    ensures old(catalog.Find(DraftQuery(d))).Some? ==>
      r == old(catalog.Find(DraftQuery(d))) && catalog.tracks == old(catalog.tracks) && catalog.order == old(catalog.order)
    ensures old(catalog.Find(DraftQuery(d))).None? ==>
      var t := NewTrack(DraftPayload(d));
      && (r.Some? <==> Validates(t) && old(catalog.Find(ByKey(t.key))).None?)
      && (r.Some? ==> r.value !in old(catalog.tracks) && catalog.tracks == old(catalog.tracks)[r.value := t]
                      && catalog.order == old(catalog.order) + [r.value])
      && (r.None? ==> catalog.tracks == old(catalog.tracks) && catalog.order == old(catalog.order))
    ensures r.Some? ==> r.value in catalog.tracks
  {
    var hit := catalog.Find(DraftQuery(d));
    if hit.Some? {
      return hit;
    }
    var created := catalog.Create(DraftPayload(d));
    if created.Created? {
      return Some(created.id);
    }
    assert created.error == Invalid || created.error == DuplicateKey;
    return None;
  }

  /** GET `/users/:userId/playlist`. `user` is the user stored under
      `userId`, or null when there is none. */
  method GetPlaylist(caller: string, userId: string, user: User?, catalog: Catalog) returns (status: int, items: seq<Track>)
    ensures caller != userId ==> status == 403 && items == []
    ensures caller == userId && user == null ==> status == 404 && items == []
    ensures caller == userId && user != null ==> status == 200 && items == Resolve(user.playlist, catalog.tracks)
  {
    if caller != userId {
      return 403, [];
    }
    if user == null {
      return 404, [];
    }
    return 200, Resolve(user.playlist, catalog.tracks);
  }

  /** POST `/users/:userId/playlist`: 403 for another user's playlist; 400
      without a track id or a draft, or for a draft without a title or an
      artist; a given track id is used as is, a draft is found or created
      (500 when creation fails); 404 for an unknown user, after any creation;
      else the id is added in front unless present and the populated
      playlist is returned with 201. `added` is the id the route settled on. */
  method PostPlaylist(caller: string, userId: string, user: User?, body: PlaylistBody, catalog: Catalog)
    returns (status: int, items: seq<Track>, added: Option<TrackId>)
    requires catalog.Valid()
    modifies catalog, user
    ensures catalog.Valid()
    ensures status in {201, 400, 403, 404, 500}
    ensures caller != userId ==>
      status == 403 && catalog.tracks == old(catalog.tracks) && catalog.order == old(catalog.order)
      && (user != null ==> user.playlist == old(user.playlist))
    ensures caller == userId && body.trackId.None? && body.track.None? ==>
      status == 400 && catalog.tracks == old(catalog.tracks) && catalog.order == old(catalog.order)
      && (user != null ==> user.playlist == old(user.playlist))
    ensures caller == userId && body.trackId.None? && body.track.Some?
            && (!Truthy(body.track.value.title) || !Truthy(body.track.value.artist)) ==>
      status == 400 && catalog.tracks == old(catalog.tracks) && catalog.order == old(catalog.order)
      && (user != null ==> user.playlist == old(user.playlist))
    ensures caller == userId && body.trackId.Some? ==>
      added == body.trackId && catalog.tracks == old(catalog.tracks) && catalog.order == old(catalog.order)
    ensures caller == userId && body.trackId.None? && body.track.Some?
            && Truthy(body.track.value.title) && Truthy(body.track.value.artist) ==>
      var found := old(catalog.Find(DraftQuery(body.track.value)));
      var t := NewTrack(DraftPayload(body.track.value));
      && (found.Some? ==> added == found && catalog.tracks == old(catalog.tracks) && catalog.order == old(catalog.order))
      && (found.None? && !(Validates(t) && old(catalog.Find(ByKey(t.key))).None?) ==>
            status == 500 && catalog.tracks == old(catalog.tracks) && catalog.order == old(catalog.order)
            && (user != null ==> user.playlist == old(user.playlist)))
      && (found.None? && Validates(t) && old(catalog.Find(ByKey(t.key))).None? ==>
            && added.Some? && added.value !in old(catalog.tracks)
            && catalog.tracks == old(catalog.tracks)[added.value := t]
            && catalog.order == old(catalog.order) + [added.value])
    ensures status == 404 ==> caller == userId && user == null
    ensures caller == userId && user == null && added.Some? ==> status == 404
    ensures status == 201 <==> caller == userId && user != null && added.Some?
    ensures status == 201 ==>
      && user.playlist == AddedTo(old(user.playlist), added.value)
      && items == Resolve(user.playlist, catalog.tracks)
    ensures status != 201 ==> (user != null ==> user.playlist == old(user.playlist)) && items == []
  {
    added := None;
    if caller != userId {
      return 403, [], added;
    }
    if body.trackId.None? && body.track.None? {
      return 400, [], added;
    }
    var id: TrackId;
    if body.trackId.Some? {
      id := body.trackId.value;
    } else {
      var d := body.track.value;
      if !Truthy(d.title) || !Truthy(d.artist) {
        return 400, [], added;
      }
      var r := FindOrCreate(catalog, d);
      if r.None? {
        return 500, [], added;
      }
      id := r.value;
    }
    added := Some(id);
    if user == null {
      return 404, [], added;
    }
    var _ := user.Add(id);
    return 201, Resolve(user.playlist, catalog.tracks), added;
  }

  /** DELETE `/users/:userId/playlist/:trackId`: 403 for another user's
      playlist, 404 for an unknown user, else every entry equal to `trackId`
      is dropped and the populated playlist returned. */
  method DeletePlaylist(caller: string, userId: string, user: User?, trackId: TrackId, catalog: Catalog)
    returns (status: int, items: seq<Track>)
    modifies user
    ensures caller != userId ==> status == 403 && items == [] && (user != null ==> user.playlist == old(user.playlist))
    ensures caller == userId && user == null ==> status == 404 && items == []
    ensures caller == userId && user != null ==>
      && status == 200
      && user.playlist == Without(old(user.playlist), trackId)
      && items == Resolve(user.playlist, catalog.tracks)
  {
    if caller != userId {
      return 403, [];
    }
    if user == null {
      return 404, [];
    }
    user.Remove(trackId);
    return 200, Resolve(user.playlist, catalog.tracks);
  }
}
