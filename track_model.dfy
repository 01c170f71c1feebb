/**
 * The Track schema of models/Track.js: the URL validator, the canonical
 * dedupe key, the fields a stored track carries, how the schema casts and
 * validates a new document, and the two document hooks (`setKeyFromParts`
 * before validation, `normalizeGenres` before saving).
 */
module TrackModel {
  import opened JsText

  // ---------------------------------------------------------------------------
  // URL fields

  /** The regular expression `/^https?:\/\//i`, written out character by
      character (the `i` flag folds only the ASCII letters here). */
  predicate HasHttpScheme(s: string) {
    && |s| >= 7
    && LowerChar(s[0]) == 'h' && LowerChar(s[1]) == 't'
    && LowerChar(s[2]) == 't' && LowerChar(s[3]) == 'p'
    && ((s[4] == ':' && s[5] == '/' && s[6] == '/')
        || (|s| >= 8 && LowerChar(s[4]) == 's' && s[5] == ':' && s[6] == '/' && s[7] == '/'))
  }

  /** `isHttpUrl`: the validator of `coverArtUrl`, `soundClipUrl` and `sourceUrl`. */
  function IsHttpUrl(v: Val): (ok: bool)
    ensures ok <==> !Truthy(v) || "http://" <= Lower(v.s) || "https://" <= Lower(v.s)
  {
    if !Truthy(v) then true
    else
      var low := Lower(v.s);
      assert |low| >= 7 ==> low[..7] == [low[0], low[1], low[2], low[3], low[4], low[5], low[6]];
      assert |low| >= 8 ==> low[..8] == [low[0], low[1], low[2], low[3], low[4], low[5], low[6], low[7]];
      HasHttpScheme(v.s)
  }

  // ---------------------------------------------------------------------------
  // The dedupe key

  /** The separator between the two parts of a key: an em dash with a space either side. */
  const Separator: string := " \U{2014} "

  /** One part of a key: the value as a string (null read as empty), trimmed
      and lower-cased. */
  function KeyPart(v: Val): string {
    Lower(Trim(OrEmpty(v)))
  }

  /** The static `Track.keyOf(artist, title)`. Internal whitespace is kept as it is. */
  function KeyOf(artist: Val, title: Val): string {
    KeyPart(artist) + Separator + KeyPart(title)
  }

  lemma KeyPartIsNormal(v: Val)
    ensures IsTrimmed(KeyPart(v)) && IsLower(KeyPart(v))
  {
    TrimLower(OrEmpty(v));
    TrimIsTrimmed(Lower(OrEmpty(v)));
    LowerIsLower(Trim(OrEmpty(v)));
  }

  /** A part that is already trimmed and lower-case is its own key part. */
  lemma KeyPartOfNormal(s: string)
    requires IsTrimmed(s) && IsLower(s)
    ensures KeyPart(Str(s)) == s
  {
    TrimOfTrimmed(s);
    LowerOfLower(s);
  }

  /** Artists and titles that differ only in the case of their letters or in
      surrounding whitespace give the same key. */
  lemma KeyOfIgnoresCaseAndPadding(a: string, a': string, t: string, t': string,
                                   p1: string, p2: string, p3: string, p4: string)
    requires Lower(a) == Lower(a') && Lower(t) == Lower(t')
    requires AllSpace(p1) && AllSpace(p2) && AllSpace(p3) && AllSpace(p4)
    ensures KeyOf(Str(p1 + a + p2), Str(p3 + t + p4)) == KeyOf(Str(a'), Str(t'))
  {
    TrimPadding(p1, a, p2);
    TrimPadding(p3, t, p4);
    TrimLower(a);
    TrimLower(a');
    TrimLower(t);
    TrimLower(t');
  }

  /** Keying is idempotent: keying the already normalised parts gives the same key,
      and a key built from normalised parts is those parts joined by the separator
      (so a run of inner whitespace is kept, not collapsed). */
  lemma KeyOfNormalizedParts(artist: Val, title: Val)
    ensures KeyOf(Str(KeyPart(artist)), Str(KeyPart(title))) == KeyOf(artist, title)
  {
    KeyPartIsNormal(artist);
    KeyPartIsNormal(title);
    KeyPartOfNormal(KeyPart(artist));
    KeyPartOfNormal(KeyPart(title));
  }

  lemma KeyOfOfNormal(a: string, t: string)
    requires IsTrimmed(a) && IsLower(a) && IsTrimmed(t) && IsLower(t)
    ensures KeyOf(Str(a), Str(t)) == a + Separator + t
  {
    KeyPartOfNormal(a);
    KeyPartOfNormal(t);
  }

  /** The schema's `trim` setters do not change the key of a document. */
  lemma KeyOfTrimmedFields(artist: Val, title: Val)
    ensures KeyOf(TrimVal(artist), TrimVal(title)) == KeyOf(artist, title)
  {
    if artist.Str? { TrimIdempotent(artist.s); }
    if title.Str? { TrimIdempotent(title.s); }
  }

  // ---------------------------------------------------------------------------
  // Stored tracks

  /** A stored Track document. The provider identifiers and `album` are not
      modelled: nothing in the catalog code writes them. */
  datatype Track = Track(
    title: Val, artist: Val, key: Val,
    coverArtUrl: Val, soundClipUrl: Val, sourceUrl: Val,
    releaseYear: Option<int>, durationMs: Option<int>,
    primaryGenre: Val, genres: seq<string>,
    likesCount: int, soundBytesCount: int)

  /** The object a controller hands to `Track.create`. `genre` is not a path
      of the schema. */
  datatype Payload = Payload(
    title: Val, artist: Val, key: Val,
    coverArtUrl: Val, soundClipUrl: Val, sourceUrl: Val, genre: Val)

  /** `new Track(payload)`: the string paths with `trim: true` are trimmed,
      `genre` is dropped (no such path; strict mode), `genres` starts as an
      empty array and both counters at their default 0. */
  function Cast(p: Payload): Track {
    Track(TrimVal(p.title), TrimVal(p.artist), p.key,
          TrimVal(p.coverArtUrl), TrimVal(p.soundClipUrl), TrimVal(p.sourceUrl),
          None, None, Null, [], 0, 0)
  }

  /** The schema's validators: `required` on title, artist and key (an empty
      string fails), the URL validators, the `releaseYear` range and the
      minimum 0 of `durationMs` and of both counters. */
  predicate Validates(t: Track) {
    && Truthy(t.title) && Truthy(t.artist) && Truthy(t.key)
    && IsHttpUrl(t.coverArtUrl) && IsHttpUrl(t.soundClipUrl) && IsHttpUrl(t.sourceUrl)
    && (t.releaseYear.Some? ==> 1800 <= t.releaseYear.value <= 9999)
    && (t.durationMs.Some? ==> t.durationMs.value >= 0)
    && t.likesCount >= 0 && t.soundBytesCount >= 0
  }

  /** The key is the one derived from the document's own artist and title. */
  predicate KeyInSync(t: Track) {
    t.key == Str(KeyOf(t.artist, t.title))
  }

  // ---------------------------------------------------------------------------
  // Genre normalisation

  /** One genre, trimmed and lower-cased. */
  function NormalizeGenre(g: string): string {
    Lower(Trim(g))
  }

  function NormalizeEach(gs: seq<string>): (r: seq<string>)
    ensures |r| == |gs|
    ensures forall i :: 0 <= i < |gs| ==> r[i] == NormalizeGenre(gs[i])
  {
    seq(|gs|, i requires 0 <= i < |gs| => NormalizeGenre(gs[i]))
  }

  /** The non-empty genres, in order. */
  function DropEmpty(gs: seq<string>): (r: seq<string>)
    ensures forall x :: x in r <==> x in gs && x != ""
  {
    if gs == [] then []
    else if gs[0] == "" then DropEmpty(gs[1..])
    else [gs[0]] + DropEmpty(gs[1..])
  }

  /** The first occurrence of each genre, in order, skipping the values the
      set `seen` already holds. */
  function FirstOccurrences(gs: seq<string>, seen: set<string>): (r: seq<string>)
    ensures forall x :: x in r <==> x in gs && x !in seen
    ensures NoDuplicates(r)
  {
    if gs == [] then []
    else if gs[0] in seen then FirstOccurrences(gs[1..], seen)
    else [gs[0]] + FirstOccurrences(gs[1..], seen + {gs[0]})
  }

  lemma FirstOccurrencesStep(gs: seq<string>, i: nat, seen: set<string>)
    requires i < |gs|
    ensures FirstOccurrences(gs[i..], seen)
         == if gs[i] in seen then FirstOccurrences(gs[i + 1..], seen)
            else [gs[i]] + FirstOccurrences(gs[i + 1..], seen + {gs[i]})
  {
    assert gs[i..][0] == gs[i] && gs[i..][1..] == gs[i + 1..];
  }

  /** One step of the `normalizeGenres` loop keeps the genres kept so far,
      followed by the first occurrences still to come, equal to the result. */
  lemma KeptStep(gs: seq<string>, i: nat, seen: set<string>, kept: seq<string>, whole: seq<string>)
    requires i < |gs|
    requires kept + FirstOccurrences(gs[i..], seen) == whole
    ensures gs[i] in seen ==> kept + FirstOccurrences(gs[i + 1..], seen) == whole
    ensures gs[i] !in seen ==>
              (kept + [gs[i]]) + FirstOccurrences(gs[i + 1..], seen + {gs[i]}) == whole
  {
    FirstOccurrencesStep(gs, i, seen);
    if gs[i] !in seen {
      var rest := FirstOccurrences(gs[i + 1..], seen + {gs[i]});
      assert kept + ([gs[i]] + rest) == (kept + [gs[i]]) + rest;
    }
  }

  /** What the `normalizeGenres` hook makes of a genres array. */
  function NormalizedGenres(gs: seq<string>): seq<string> {
    FirstOccurrences(DropEmpty(NormalizeEach(gs)), {})
  }

  lemma NormalizeGenreIsNormal(g: string)
    ensures IsTrimmed(NormalizeGenre(g)) && IsLower(NormalizeGenre(g))
  {
    TrimLower(g);
    TrimIsTrimmed(Lower(g));
    LowerIsLower(Trim(g));
  }

  /** After normalisation every genre is non-empty, trimmed and lower-case, no
      genre appears twice, and exactly the non-empty normalised inputs remain. */
  lemma NormalizedGenresClean(gs: seq<string>)
    ensures var r := NormalizedGenres(gs);
      && NoDuplicates(r)
      && (forall i :: 0 <= i < |r| ==> r[i] != "" && IsTrimmed(r[i]) && IsLower(r[i]))
      && (forall g :: g in gs && NormalizeGenre(g) != "" ==> NormalizeGenre(g) in r)
      && (forall x :: x in r ==> exists g :: g in gs && NormalizeGenre(g) == x)
  {
    var n := NormalizeEach(gs);
    var r := NormalizedGenres(gs);
    forall i | 0 <= i < |r|
      ensures r[i] != "" && IsTrimmed(r[i]) && IsLower(r[i])
    {
      assert r[i] in n;
      var k :| 0 <= k < |n| && n[k] == r[i];
      NormalizeGenreIsNormal(gs[k]);
    }
    forall g | g in gs && NormalizeGenre(g) != ""
      ensures NormalizeGenre(g) in r
    {
      var k :| 0 <= k < |gs| && gs[k] == g;
      assert n[k] == NormalizeGenre(g);
    }
    forall x | x in r
      ensures exists g :: g in gs && NormalizeGenre(g) == x
    {
      var k :| 0 <= k < |n| && n[k] == x;
      assert gs[k] in gs;
    }
  }

  lemma {:induction false} FirstOccurrencesSnoc(xs: seq<string>, x: string, seen: set<string>)
    ensures FirstOccurrences(xs + [x], seen)
         == FirstOccurrences(xs, seen)
            + (if x in seen || x in FirstOccurrences(xs, seen) then [] else [x])
  {
    if xs == [] {
      assert xs + [x] == [x];
    } else {
      assert (xs + [x])[1..] == xs[1..] + [x];
      if xs[0] in seen {
        FirstOccurrencesSnoc(xs[1..], x, seen);
      } else {
        FirstOccurrencesSnoc(xs[1..], x, seen + {xs[0]});
      }
    }
  }

  lemma {:induction false} DropEmptySnoc(xs: seq<string>, x: string)
    ensures DropEmpty(xs + [x]) == DropEmpty(xs) + (if x == "" then [] else [x])
  {
    if xs == [] {
      assert xs + [x] == [x];
    } else {
      assert (xs + [x])[1..] == xs[1..] + [x];
      DropEmptySnoc(xs[1..], x);
    }
  }

  /** The hook keeps the first occurrence of each normalised genre, in input
      order, and drops only empties and repeats: appending a genre appends its
      normalised form exactly when that form is new and non-empty. Together with
      `NormalizedGenres([]) == []` this determines the hook's result. */
  lemma NormalizedGenresSnoc(gs: seq<string>, g: string)
    ensures var n := NormalizeGenre(g);
      NormalizedGenres(gs + [g])
      == NormalizedGenres(gs) + (if n == "" || n in NormalizedGenres(gs) then [] else [n])
  {
    var n := NormalizeGenre(g);
    var before := DropEmpty(NormalizeEach(gs));
    NormalizeEachSnoc(gs, g);
    DropEmptySnoc(NormalizeEach(gs), n);
    if n == "" {
      assert DropEmpty(NormalizeEach(gs + [g])) == before;
    } else {
      assert DropEmpty(NormalizeEach(gs + [g])) == before + [n];
      FirstOccurrencesSnoc(before, n, {});
    }
  }

  lemma NormalizeEachSnoc(gs: seq<string>, g: string)
    ensures NormalizeEach(gs + [g]) == NormalizeEach(gs) + [NormalizeGenre(g)]
  {
    var l := NormalizeEach(gs + [g]);
    var r := NormalizeEach(gs) + [NormalizeGenre(g)];
    assert |l| == |r|;
    forall i | 0 <= i < |l| ensures l[i] == r[i] {
      if i < |gs| {
        assert (gs + [g])[i] == gs[i];
      } else {
        assert (gs + [g])[i] == g;
      }
    }
  }

  lemma {:induction false} FirstOccurrencesOfDistinct(xs: seq<string>, seen: set<string>)
    requires NoDuplicates(xs)
    requires forall x :: x in xs ==> x !in seen
    ensures FirstOccurrences(xs, seen) == xs
  {
    if xs != [] {
      assert xs[0] !in xs[1..];
      FirstOccurrencesOfDistinct(xs[1..], seen + {xs[0]});
    }
  }

  lemma {:induction false} DropEmptyOfNonEmpty(xs: seq<string>)
    requires forall i :: 0 <= i < |xs| ==> xs[i] != ""
    ensures DropEmpty(xs) == xs
  {
    if xs != [] {
      DropEmptyOfNonEmpty(xs[1..]);
    }
  }

  /** Running the hook twice gives the same genres as running it once. */
  lemma NormalizedGenresIdempotent(gs: seq<string>)
    ensures NormalizedGenres(NormalizedGenres(gs)) == NormalizedGenres(gs)
  {
    var r := NormalizedGenres(gs);
    NormalizedGenresClean(gs);
    forall i | 0 <= i < |r|
      ensures NormalizeGenre(r[i]) == r[i]
    {
      TrimOfTrimmed(r[i]);
      LowerOfLower(r[i]);
    }
    assert NormalizeEach(r) == r;
    DropEmptyOfNonEmpty(r);
    FirstOccurrencesOfDistinct(r, {});
  }

  // ---------------------------------------------------------------------------
  // A document in memory, with its hooks

  /** A Track document between `new Track(...)` and its insertion: the hooks
      change its fields in place. */
  class TrackDocument {
    var title: Val
    var artist: Val
    var key: Val
    var coverArtUrl: Val
    var soundClipUrl: Val
    var sourceUrl: Val
    var releaseYear: Option<int>
    var durationMs: Option<int>
    var primaryGenre: Val
    var genres: seq<string>
    var likesCount: int
    var soundBytesCount: int
    /** `isModified('artist')` and `isModified('title')`. */
    var artistModified: bool
    var titleModified: bool

    /** The document's fields as a value. */
    function Value(): Track
      reads this
    {
      Track(title, artist, key, coverArtUrl, soundClipUrl, sourceUrl,
            releaseYear, durationMs, primaryGenre, genres, likesCount, soundBytesCount)
    }

    /** `new Track(p)`: on a new document every path that was given a value is modified. */
    constructor (p: Payload)
      ensures Value() == Cast(p)
      ensures artistModified == p.artist.Str? && titleModified == p.title.Str?
    {
      var c := Cast(p);
      title, artist, key := c.title, c.artist, c.key;
      coverArtUrl, soundClipUrl, sourceUrl := c.coverArtUrl, c.soundClipUrl, c.sourceUrl;
      releaseYear, durationMs := c.releaseYear, c.durationMs;
      primaryGenre, genres := c.primaryGenre, c.genres;
      likesCount, soundBytesCount := c.likesCount, c.soundBytesCount;
      artistModified, titleModified := p.artist.Str?, p.title.Str?;
    }

    /** The `setKeyFromParts` pre-validate hook: the key is re-derived from the
        document's artist and title when either was modified or the key is
        empty, and left alone otherwise. */
    method SetKeyFromParts()
      modifies this`key
      ensures if artistModified || titleModified || !Truthy(old(key))
              then key == Str(KeyOf(artist, title))
              else key == old(key)
    {
      if artistModified || titleModified || !Truthy(key) {
        var a := Coalesce(artist, Str(""));
        var t := Coalesce(title, Str(""));
        assert KeyPart(a) == KeyPart(artist) && KeyPart(t) == KeyPart(title);
        key := Str(KeyOf(a, t));
      }
    }

    /** The `normalizeGenres` pre-save hook: genres are normalised, de-duplicated
        and stripped of empties; a truthy primary genre is trimmed. */
    method NormalizeGenres()
      modifies this`genres, this`primaryGenre
      ensures genres == NormalizedGenres(old(genres))
      ensures primaryGenre == if Truthy(old(primaryGenre)) then Str(Trim(old(primaryGenre).s))
                              else old(primaryGenre)
    {
      var candidates := DropEmpty(NormalizeEach(genres));
      var seen: set<string> := {};
      var kept: seq<string> := [];
      var i := 0;
      while i < |candidates|
        invariant 0 <= i <= |candidates|
        invariant kept + FirstOccurrences(candidates[i..], seen) == FirstOccurrences(candidates, {})
        invariant primaryGenre == old(primaryGenre)
      {
        var g := candidates[i];
        KeptStep(candidates, i, seen, kept, FirstOccurrences(candidates, {}));
        if g !in seen {
          seen := seen + {g};
          kept := kept + [g];
        }
        i := i + 1;
      }
      assert candidates[i..] == [];
      genres := kept;
      TrimPrimaryGenre();
    }

    /** A truthy primary genre is trimmed; a falsy one is left alone. */
    method TrimPrimaryGenre()
      modifies this`primaryGenre
      ensures primaryGenre == if Truthy(old(primaryGenre)) then Str(Trim(old(primaryGenre).s))
                              else old(primaryGenre)
    {
      if Truthy(primaryGenre) {
        primaryGenre := Str(Trim(primaryGenre.s));
      }
    }
  }

  /** The track `Track.create(p)` stores: the cast document after the
      pre-validate hook has set its key and the pre-save hook its genres. */
  function NewTrack(p: Payload): Track {
    var c := Cast(p);
    var keyed := if p.artist.Str? || p.title.Str? || !Truthy(c.key)
                 then c.(key := Str(KeyOf(c.artist, c.title))) else c;
    keyed.(genres := NormalizedGenres(keyed.genres),
           primaryGenre := if Truthy(keyed.primaryGenre) then Str(Trim(keyed.primaryGenre.s))
                           else keyed.primaryGenre)
  }

  /** Creating a track with an artist and a title stores the key
      `Track.keyOf(artist, title)` of the raw values, whatever key the payload
      carried: the hook overwrites it, and trimming the fields first does not
      change it. The new track starts with no genres and both counters at 0. */
  lemma NewTrackKey(p: Payload)
    requires p.artist.Str? && p.title.Str?
    ensures NewTrack(p).key == Str(KeyOf(p.artist, p.title))
    ensures KeyInSync(NewTrack(p))
    ensures NewTrack(p).genres == [] && NewTrack(p).likesCount == 0 && NewTrack(p).soundBytesCount == 0
  {
    KeyOfTrimmedFields(p.artist, p.title);
  }

  /** A new track passes validation exactly when its trimmed title and artist
      are non-empty and each given URL, trimmed, is empty or http(s); a valid
      new track's key is in sync with its artist and title. */
  lemma NewTrackValidation(p: Payload)
    ensures Validates(NewTrack(p)) <==>
      && Truthy(TrimVal(p.title)) && Truthy(TrimVal(p.artist))
      && IsHttpUrl(TrimVal(p.coverArtUrl)) && IsHttpUrl(TrimVal(p.soundClipUrl))
      && IsHttpUrl(TrimVal(p.sourceUrl))
    ensures Validates(NewTrack(p)) ==> KeyInSync(NewTrack(p))
  {
    if Truthy(TrimVal(p.title)) && Truthy(TrimVal(p.artist)) {
      NewTrackKey(p);
    }
  }
}
