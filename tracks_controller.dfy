/**
 * The `/tracks` routes: the controller's key helpers, the search filter, the
 * page and limit arithmetic of the listing, and the catalog with its
 * find-or-create, update, delete and lookup routes.
 */
module TracksController {
  import opened JsText
  import opened TrackModel
  import MusicService

  // ---------------------------------------------------------------------------
  // clean and the local keyOf

  /** Every whitespace character is a plain space and no two are adjacent. */
  predicate SingleSpaced(s: string) {
    forall i :: 0 <= i < |s| && IsSpace(s[i]) ==> s[i] == ' ' && (i + 1 < |s| ==> !IsSpace(s[i + 1]))
  }

  lemma SingleSpacedCons(c: char, r: string)
    requires SingleSpaced(r)
    requires IsSpace(c) ==> c == ' ' && (r == [] || !IsSpace(r[0]))
    ensures SingleSpaced([c] + r)
  {
    var cr := [c] + r;
    forall i | 0 <= i < |cr| && IsSpace(cr[i])
      ensures cr[i] == ' ' && (i + 1 < |cr| ==> !IsSpace(cr[i + 1]))
    {
      if i > 0 {
        assert cr[i] == r[i - 1];
        if i + 1 < |cr| {
          assert cr[i + 1] == r[i];
        }
      }
    }
  }

  /** Every run of whitespace becomes one space. */
  function Collapse(s: string): (r: string)
    ensures |r| <= |s|
    ensures r == [] <==> s == []
    ensures s != [] ==> (IsSpace(r[0]) <==> IsSpace(s[0]))
    ensures s != [] ==> (IsSpace(r[|r| - 1]) <==> IsSpace(s[|s| - 1]))
    ensures SingleSpaced(r)
    decreases |s|
  {
    if s == [] then []
    else if IsSpace(s[0]) then
      TrimStartShape(s[1..]);
      var rest := TrimStart(s[1..]);
      assert rest != [] ==> rest[|rest| - 1] == s[|s| - 1];
      assert rest == [] ==> IsSpace(s[|s| - 1]) by {
        if rest == [] && |s| > 1 {
          assert s[1..][|s| - 2] == s[|s| - 1];
        }
      }
      var r := Collapse(rest);
      SingleSpacedCons(' ', r);
      [' '] + r
    else
      var r := Collapse(s[1..]);
      SingleSpacedCons(s[0], r);
      [s[0]] + r
  }

  /** Collapsing never introduces a capital letter. */
  lemma {:induction false} CollapseLower(s: string)
    requires IsLower(s)
    ensures IsLower(Collapse(s))
    decreases |s|
  {
    if s != [] {
      if IsSpace(s[0]) {
        TrimStartShape(s[1..]);
        CollapseLower(TrimStart(s[1..]));
      } else {
        CollapseLower(s[1..]);
      }
    }
  }

  /** The non-whitespace characters of `s`, in order. */
  function NonSpace(s: string): string {
    if s == [] then []
    else if IsSpace(s[0]) then NonSpace(s[1..])
    else [s[0]] + NonSpace(s[1..])
  }

  lemma {:induction false} NonSpaceConcat(a: string, b: string)
    ensures NonSpace(a + b) == NonSpace(a) + NonSpace(b)
  {
    if a == [] {
      assert a + b == b;
    } else {
      assert (a + b)[1..] == a[1..] + b;
      NonSpaceConcat(a[1..], b);
    }
  }

  lemma {:induction false} NonSpaceOfSpace(s: string)
    requires AllSpace(s)
    ensures NonSpace(s) == []
  {
    if s != [] {
      NonSpaceOfSpace(s[1..]);
    }
  }

  lemma NonSpaceTrimStart(s: string)
    ensures NonSpace(TrimStart(s)) == NonSpace(s)
  {
    TrimStartShape(s);
    var r := TrimStart(s);
    assert s == s[..|s| - |r|] + r;
    NonSpaceConcat(s[..|s| - |r|], r);
    NonSpaceOfSpace(s[..|s| - |r|]);
  }

  lemma NonSpaceTrimEnd(s: string)
    ensures NonSpace(TrimEnd(s)) == NonSpace(s)
  {
    TrimEndShape(s);
    var r := TrimEnd(s);
    assert s == r + s[|r|..];
    NonSpaceConcat(r, s[|r|..]);
    NonSpaceOfSpace(s[|r|..]);
  }

  lemma {:induction false} NonSpaceLower(s: string)
    ensures NonSpace(Lower(s)) == Lower(NonSpace(s))
  {
    if s != [] {
      assert Lower(s)[1..] == Lower(s[1..]);
      NonSpaceLower(s[1..]);
      if !IsSpace(s[0]) {
        LowerConcat([s[0]], NonSpace(s[1..]));
      }
    }
  }

  /** Collapsing keeps every non-whitespace character, in order. */
  lemma {:induction false} CollapseKeepsText(s: string)
    ensures NonSpace(Collapse(s)) == NonSpace(s)
    decreases |s|
  {
    if s != [] {
      if IsSpace(s[0]) {
        TrimStartShape(s[1..]);
        var rest := TrimStart(s[1..]);
        CollapseKeepsText(rest);
        NonSpaceTrimStart(s[1..]);
        NonSpaceConcat([' '], Collapse(rest));
      } else {
        CollapseKeepsText(s[1..]);
        NonSpaceConcat([s[0]], Collapse(s[1..]));
      }
    }
  }

  /** The tail of a single-spaced string is single-spaced, and a leading
      space is a plain space followed by a non-space. */
  lemma SingleSpacedTail(s: string)
    requires SingleSpaced(s) && s != []
    ensures SingleSpaced(s[1..])
    ensures IsSpace(s[0]) ==> s[0] == ' ' && (s[1..] == [] || !IsSpace(s[1..][0]))
  {
    forall i | 0 <= i < |s[1..]| && IsSpace(s[1..][i])
      ensures s[1..][i] == ' ' && (i + 1 < |s[1..]| ==> !IsSpace(s[1..][i + 1]))
    {
      assert s[1..][i] == s[i + 1];
      if i + 1 < |s[1..]| {
        assert s[1..][i + 1] == s[i + 2];
      }
    }
  }

  /** A leading character that is not whitespace is kept. */
  lemma CollapseKeep(s: string)
    requires s != [] && !IsSpace(s[0])
    ensures Collapse(s) == [s[0]] + Collapse(s[1..])
  {
  }

  /** A leading whitespace character and the run after it become one space. */
  lemma CollapseSpace(s: string)
    requires s != [] && IsSpace(s[0])
    ensures Collapse(s) == [' '] + Collapse(TrimStart(s[1..]))
  {
  }

  lemma CollapseKeepConcat(a: string, r: string)
    requires a != [] && !IsSpace(a[0])
    ensures Collapse(a + r) == [a[0]] + Collapse(a[1..] + r)
  {
    var ar := a + r;
    assert ar[0] == a[0] && ar[1..] == a[1..] + r;
    CollapseKeep(ar);
  }

  lemma CollapseSpaceConcat(a: string, r: string)
    requires a != [] && IsSpace(a[0])
    ensures Collapse(a + r) == [' '] + Collapse(TrimStart(a[1..] + r))
  {
    var ar := a + r;
    assert ar[0] == a[0] && ar[1..] == a[1..] + r;
    CollapseSpace(ar);
  }

  /** A whitespace run before text that does not start with whitespace
      becomes one space. */
  lemma CollapseLeadingRun(w: string, b: string)
    requires w != [] && AllSpace(w)
    requires b == [] || !IsSpace(b[0])
    ensures Collapse(w + b) == " " + Collapse(b)
  {
    CollapseSpaceConcat(w, b);
    TrimStartPadded(w[1..], b);
    assert TrimStart(b) == b;
  }

  lemma Assoc<T>(p: seq<T>, q: seq<T>, r: seq<T>)
    ensures p + (q + r) == p + q + r
  {
  }

  lemma ConsAssoc<T>(c: T, p: seq<T>, q: seq<T>)
    ensures [c] + (p + q) == [c] + p + q
  {
  }

  lemma CollapseConcatUnspaced(a: string, r: string)
    requires a != [] && !IsSpace(a[0])
    requires Collapse(a[1..] + r) == Collapse(a[1..]) + Collapse(r)
    ensures Collapse(a + r) == Collapse(a) + Collapse(r)
  {
    CollapseKeepConcat(a, r);
    CollapseKeep(a);
    ConsAssoc(a[0], Collapse(a[1..]), Collapse(r));
  }

  lemma CollapseConcatSpaced(a: string, r: string, y: string)
    requires a != [] && IsSpace(a[0]) && y == TrimStart(a[1..])
    requires TrimStart(a[1..] + r) == y + r
    requires Collapse(y + r) == Collapse(y) + Collapse(r)
    ensures Collapse(a + r) == Collapse(a) + Collapse(r)
  {
    CollapseSpaceConcat(a, r);
    CollapseSpace(a);
    ConsAssoc(' ', Collapse(y), Collapse(r));
  }

  /** `trimStart` of text ending in a non-whitespace character keeps that
      character last. */
  lemma TrimStartKeepsLast(x: string)
    requires x != [] && !IsSpace(x[|x| - 1])
    ensures var y := TrimStart(x); y != [] && |y| <= |x| && y[|y| - 1] == x[|x| - 1]
  {
    TrimStartShape(x);
    assert x[..|x|] == x;
  }

  /** Text ending in a non-whitespace character collapses independently of
      what follows it. */
  lemma {:induction false} CollapseConcat(a: string, r: string)
    requires a == [] || !IsSpace(a[|a| - 1])
    ensures Collapse(a + r) == Collapse(a) + Collapse(r)
    decreases |a|
  {
    if a == [] {
      assert a + r == r;
    } else if IsSpace(a[0]) {
      var x := a[1..];
      TrimStartConcat(x, r);
      TrimStartKeepsLast(x);
      var y := TrimStart(x);
      CollapseConcat(y, r);
      CollapseConcatSpaced(a, r, y);
    } else {
      CollapseConcat(a[1..], r);
      CollapseConcatUnspaced(a, r);
    }
  }

  /** A run of whitespace between two words becomes exactly one space. */
  lemma CollapseRun(a: string, w: string, b: string)
    requires a == [] || !IsSpace(a[|a| - 1])
    requires w != [] && AllSpace(w)
    requires b == [] || !IsSpace(b[0])
    ensures Collapse(a + w + b) == Collapse(a) + " " + Collapse(b)
  {
    Assoc(a, w, b);
    CollapseConcat(a, w + b);
    CollapseLeadingRun(w, b);
    Assoc(Collapse(a), " ", Collapse(b));
  }

  /** A character that is not whitespace, put before a string `Collapse`
      leaves alone, is left alone too. */
  lemma CollapseConsUnspaced(s: string)
    requires s != [] && !IsSpace(s[0]) && Collapse(s[1..]) == s[1..]
    ensures Collapse(s) == s
  {
    assert s == [s[0]] + s[1..];
  }

  /** So is one space put before a string that does not start with whitespace. */
  lemma CollapseConsSpace(s: string)
    requires s != [] && s[0] == ' ' && (s[1..] == [] || !IsSpace(s[1..][0]))
    requires Collapse(s[1..]) == s[1..]
    ensures Collapse(s) == s
  {
    assert TrimStart(s[1..]) == s[1..];
    assert s == [s[0]] + s[1..];
  }

  /** A single-spaced string is left as it is. */
  lemma {:induction false} CollapseOfSingleSpaced(s: string)
    requires SingleSpaced(s)
    ensures Collapse(s) == s
    decreases |s|
  {
    if s != [] {
      SingleSpacedTail(s);
      CollapseOfSingleSpaced(s[1..]);
      if IsSpace(s[0]) {
        CollapseConsSpace(s);
      } else {
        CollapseConsUnspaced(s);
      }
    }
  }

  /** The controller's `clean`: the value as a string (null read as empty),
      trimmed, lower-cased, with each run of whitespace made one space. */
  function Clean(v: Val): string {
    Collapse(Lower(Trim(OrEmpty(v))))
  }

  predicate IsClean(s: string) {
    IsLower(s) && IsTrimmed(s) && SingleSpaced(s)
  }

  /** Collapsing keeps a trimmed string trimmed. */
  lemma CollapseTrimmed(s: string)
    requires IsTrimmed(s)
    ensures IsTrimmed(Collapse(s))
  {
  }

  /** `clean` yields a lower-case, trimmed, single-spaced string; null gives "". */
  lemma CleanIsClean(v: Val)
    ensures IsClean(Clean(v))
    ensures v.Null? ==> Clean(v) == ""
  {
    var s := OrEmpty(v);
    TrimLower(s);
    TrimIsTrimmed(Lower(s));
    LowerIsLower(Trim(s));
    CollapseLower(Lower(Trim(s)));
    CollapseTrimmed(Lower(Trim(s)));
  }

  /** `clean` keeps every non-whitespace character of its input, lower-cased
      and in order. */
  lemma CleanKeepsText(v: Val)
    ensures NonSpace(Clean(v)) == Lower(NonSpace(OrEmpty(v)))
  {
    var s := OrEmpty(v);
    CollapseKeepsText(Lower(Trim(s)));
    NonSpaceLower(Trim(s));
    NonSpaceTrimStart(s);
    NonSpaceTrimEnd(TrimStart(s));
  }

  /** A clean string is its own `clean`. */
  lemma CleanOfClean(s: string)
    requires IsClean(s)
    ensures Clean(Str(s)) == s
  {
    TrimOfTrimmed(s);
    LowerOfLower(s);
    CollapseOfSingleSpaced(s);
  }

  lemma CleanIdempotent(v: Val)
    ensures Clean(Str(Clean(v))) == Clean(v)
  {
    CleanIsClean(v);
    CleanOfClean(Clean(v));
  }

  /** The controller's own `keyOf`: the cleaned artist, title and clip URL
      joined by `::`, the clip defaulting to empty. */
  function LocalKeyOf(artist: Val, title: Val, soundClipUrl: Val): string {
    Clean(artist) + "::" + Clean(title) + "::" + Clean(soundClipUrl)
  }

  /** The local key is the same for parts that were cleaned already. */
  lemma LocalKeyOfCleanParts(artist: Val, title: Val, soundClipUrl: Val)
    ensures LocalKeyOf(Str(Clean(artist)), Str(Clean(title)), Str(Clean(soundClipUrl)))
         == LocalKeyOf(artist, title, soundClipUrl)
  {
    CleanIdempotent(artist);
    CleanIdempotent(title);
    CleanIdempotent(soundClipUrl);
  }

  /** The key POST looks up: `Track.keyOf?.(artist, title, soundClipUrl) ??
      keyOf(artist, title, soundClipUrl)`. The static exists and returns a
      string, so the local fallback is never taken. */
  function PostKey(artist: Val, title: Val, soundClipUrl: Val): string {
    var fromModel: Val := Str(KeyOf(artist, title));
    Coalesce(fromModel, Str(LocalKeyOf(artist, title, soundClipUrl))).s
  }

  /** POST keys on artist and title only: the clip never changes the key. */
  lemma PostKeyIgnoresClip(artist: Val, title: Val, clip1: Val, clip2: Val)
    ensures PostKey(artist, title, clip1) == PostKey(artist, title, clip2) == KeyOf(artist, title)
  {
  }

  // ---------------------------------------------------------------------------
  // parseInt and the page and limit arithmetic

  /** The digits at the start of `s`. */
  function DigitPrefix(s: string): (d: string)
    ensures d <= s && AllDigits(d) && (|d| == |s| || !IsDigit(s[|d|]))
  {
    if s != [] && IsDigit(s[0]) then [s[0]] + DigitPrefix(s[1..]) else []
  }

  function DecimalValue(ds: string): nat
    requires AllDigits(ds)
  {
    if ds == [] then 0
    else
      assert IsDigit(ds[|ds| - 1]);
      DecimalValue(ds[..|ds| - 1]) * 10 + (ds[|ds| - 1] as int - '0' as int)
  }

  /** `parseInt(s, 10)`: leading whitespace and one sign are skipped and the
      longest run of decimal digits is read; `None` stands for NaN. */
  function ParseInt(s: string): Option<int> {
    var t := TrimStart(s);
    var signed := t != [] && (t[0] == '-' || t[0] == '+');
    var digits := DigitPrefix(if signed then t[1..] else t);
    if digits == [] then None
    else
      var n: int := DecimalValue(digits);
      if signed && t[0] == '-' then Some(-n) else Some(n)
  }

  /** The page number: the parsed `page` (default "1"), with an unparsable
      or zero value read as 1 and anything below 1 raised to 1. */
  function ClampPage(page: Val): (p: int)
    ensures p >= 1
    ensures var n := ParseInt(Coalesce(page, Str("1")).s);
      p == if n.Some? && n.value >= 1 then n.value else 1
  {
    var n := ParseInt(Coalesce(page, Str("1")).s);
    var x := if n.None? || n.value == 0 then 1 else n.value;
    if x < 1 then 1 else x
  }

  /** The page size: the parsed `limit` (default "10"), with an unparsable
      or zero value read as 10, then clamped to 1 through 50. */
  function ClampLimit(limit: Val): (l: int)
    ensures 1 <= l <= 50
    ensures var n := ParseInt(Coalesce(limit, Str("10")).s);
      l == if n.None? || n.value == 0 then 10
           else if n.value < 1 then 1
           else if n.value > 50 then 50
           else n.value
  {
    var n := ParseInt(Coalesce(limit, Str("10")).s);
    var x := if n.None? || n.value == 0 then 10 else n.value;
    var y := if x < 1 then 1 else x;
    if y > 50 then 50 else y
  }

  /** The decimal numeral of `n`, as a query string carries it. */
  function DecimalString(n: nat): (s: string)
    ensures s != [] && AllDigits(s)
  {
    var digit := ('0' as int + n % 10) as char;
    if n < 10 then [digit] else DecimalString(n / 10) + [digit]
  }

  lemma {:induction false} DecimalValueOfString(n: nat)
    ensures DecimalValue(DecimalString(n)) == n
  {
    if n >= 10 {
      var s := DecimalString(n);
      assert s[..|s| - 1] == DecimalString(n / 10);
      DecimalValueOfString(n / 10);
    }
  }

  lemma {:induction false} DigitPrefixOfDigits(s: string)
    requires AllDigits(s)
    ensures DigitPrefix(s) == s
  {
    if s != [] {
      DigitPrefixOfDigits(s[1..]);
    }
  }

  /** `parseInt` reads back the numeral of every natural number. */
  lemma ParseIntOfDecimal(n: nat)
    ensures ParseInt(DecimalString(n)) == Some(n)
  {
    var s := DecimalString(n);
    assert !IsSpace(s[0]);
    assert TrimStart(s) == s;
    DigitPrefixOfDigits(s);
    DecimalValueOfString(n);
  }

  /** A page number sent as its numeral is used as it is. */
  lemma ClampPageOfDecimal(p: nat)
    requires p >= 1
    ensures ClampPage(Str(DecimalString(p))) == p
  {
    ParseIntOfDecimal(p);
  }

  /** A limit from 1 to 50 sent as its numeral is used as it is. */
  lemma ClampLimitOfDecimal(l: nat)
    requires 1 <= l <= 50
    ensures ClampLimit(Str(DecimalString(l))) == l
  {
    ParseIntOfDecimal(l);
  }

  // ---------------------------------------------------------------------------
  // buildFilter

  /** The characters `buildFilter` escapes: `.*+?^${}()|[]\`. */
  predicate IsRegexSyntax(c: char) {
    c == '.' || c == '*' || c == '+' || c == '?' || c == '^' || c == '$' || c == '{' || c == '}'
    || c == '(' || c == ')' || c == '|' || c == '[' || c == ']' || c == '\\'
  }

  /** Every regular-expression syntax character gets a backslash in front. */
  function EscapeRegex(s: string): string {
    if s == [] then []
    else (if IsRegexSyntax(s[0]) then ['\\', s[0]] else [s[0]]) + EscapeRegex(s[1..])
  }

  /** Reads a regular-expression source made only of literal characters and
      escaped syntax characters; `None` for any other construct. */
  function LiteralOf(source: string): Option<string> {
    if source == [] then Some([])
    else if source[0] == '\\' then
      if |source| >= 2 && IsRegexSyntax(source[1]) then
        match LiteralOf(source[2..])
        case None => None
        case Some(rest) => Some([source[1]] + rest)
      else None
    else if IsRegexSyntax(source[0]) then None
    else
      match LiteralOf(source[1..])
      case None => None
      case Some(rest) => Some([source[0]] + rest)
  }

  /** The escaped query is a pure literal that spells the query. */
  lemma {:induction false} LiteralOfEscape(s: string)
    ensures LiteralOf(EscapeRegex(s)) == Some(s)
  {
    if s != [] {
      var e := EscapeRegex(s);
      LiteralOfEscape(s[1..]);
      if IsRegexSyntax(s[0]) {
        assert e[2..] == EscapeRegex(s[1..]);
      } else {
        assert e[1..] == EscapeRegex(s[1..]);
      }
      assert s == [s[0]] + s[1..];
    }
  }

  /** The Mongo filter: everything, or a case-insensitive pattern `source`
      tried against the title or the artist. */
  datatype Filter = All | Either(source: string)

  /** `buildFilter`: a blank query matches everything; otherwise the trimmed
      query, escaped, is the pattern. */
  function BuildFilter(q: Val): Filter {
    if !Truthy(q) || Trim(q.s) == "" then All
    else Either(EscapeRegex(Trim(q.s)))
  }

  /** A case-insensitive literal regular expression tested against a field;
      a missing field never matches. */
  predicate FieldMatches(source: string, field: Val) {
    && field.Str?
    && var lit := LiteralOf(source);
    && lit.Some?
    && Contains(Lower(field.s), Lower(lit.value))
  }

  predicate Matches(f: Filter, t: Track) {
    f.All? || FieldMatches(f.source, t.title) || FieldMatches(f.source, t.artist)
  }

  /** A blank query matches every track; otherwise a track matches exactly
      when the trimmed query occurs, ignoring case, in its title or its
      artist; regular-expression characters in the query stand for
      themselves. */
  lemma BuildFilterMatches(q: Val, t: Track)
    ensures Matches(BuildFilter(q), t) <==>
      || !Truthy(q) || Trim(q.s) == ""
      || (t.title.Str? && OccursIn(Lower(Trim(q.s)), Lower(t.title.s)))
      || (t.artist.Str? && OccursIn(Lower(Trim(q.s)), Lower(t.artist.s)))
  {
    if Truthy(q) && Trim(q.s) != "" {
      LiteralOfEscape(Trim(q.s));
    }
  }

  // ---------------------------------------------------------------------------
  // Searching the store

  /** A store-assigned track id. */
  type TrackId = nat

  /** A `findOne` filter: by key (POST), or by title, artist and clip
      (the playlist's draft path, where a missing clip looks for null). */
  datatype Query = ByKey(key: Val) | ByFields(title: Val, artist: Val, soundClipUrl: Val)

  predicate Hit(q: Query, t: Track) {
    match q
    case ByKey(k) => t.key == k
    case ByFields(title, artist, clip) => t.title == title && t.artist == artist && t.soundClipUrl == clip
  }

  /** The first of `ids`, in store order, whose track satisfies `q`. */
  function FindFirst(ids: seq<TrackId>, tracks: map<TrackId, Track>, q: Query): (r: Option<TrackId>)
    requires forall id :: id in ids ==> id in tracks
    ensures r.Some? ==> r.value in ids && Hit(q, tracks[r.value])
    ensures r.None? ==> forall id :: id in ids ==> !Hit(q, tracks[id])
  {
    if ids == [] then None
    else if Hit(q, tracks[ids[0]]) then Some(ids[0])
    else FindFirst(ids[1..], tracks, q)
  }

  /** The ids of `ids` whose tracks match `f`, last inserted first: the
      listing's order of creation time, descending. */
  function NewestFirst(ids: seq<TrackId>, tracks: map<TrackId, Track>, f: Filter): (r: seq<TrackId>)
    requires forall id :: id in ids ==> id in tracks
    ensures forall x :: x in r <==> x in ids && Matches(f, tracks[x])
    ensures |r| <= |ids|
  {
    if ids == [] then []
    else
      var last := ids[|ids| - 1];
      var rest := NewestFirst(ids[..|ids| - 1], tracks, f);
      assert forall x :: x in ids <==> x in ids[..|ids| - 1] || x == last;
      if Matches(f, tracks[last]) then [last] + rest else rest
  }

  /** `x` was inserted after `y`. */
  ghost predicate Newer(ids: seq<TrackId>, x: TrackId, y: TrackId) {
    exists a, b :: 0 <= b < a < |ids| && ids[a] == x && ids[b] == y
  }

  /** Every item of `r` was inserted after each item that follows it. */
  ghost predicate NewestOrdered(ids: seq<TrackId>, r: seq<TrackId>) {
    forall i, j :: 0 <= i < j < |r| ==> Newer(ids, r[i], r[j])
  }

  /** What is newer within a prefix stays newer in the whole sequence. */
  lemma NewerInPrefix(ids: seq<TrackId>, n: nat, x: TrackId, y: TrackId)
    requires n <= |ids| && Newer(ids[..n], x, y)
    ensures Newer(ids, x, y)
  {
    var a, b :| 0 <= b < a < n && ids[..n][a] == x && ids[..n][b] == y;
    assert ids[a] == x && ids[b] == y;
  }

  /** The last id is newer than every id before it. */
  lemma LastIsNewest(ids: seq<TrackId>, y: TrackId)
    requires ids != [] && y in ids[..|ids| - 1]
    ensures Newer(ids, ids[|ids| - 1], y)
  {
    var b :| 0 <= b < |ids| - 1 && ids[..|ids| - 1][b] == y;
    assert ids[b] == y;
  }

  /** Putting the last id (or nothing) before an ordering of earlier ids
      keeps the result ordered newest first. */
  lemma OrderedAfterStep(ids: seq<TrackId>, rest: seq<TrackId>, r: seq<TrackId>, keep: bool)
    requires ids != []
    requires NewestOrdered(ids[..|ids| - 1], rest)
    requires forall x :: x in rest ==> x in ids[..|ids| - 1]
    requires r == if keep then [ids[|ids| - 1]] + rest else rest
    ensures NewestOrdered(ids, r)
  {
    var n := |ids| - 1;
    var head := if keep then 1 else 0;
    forall i, j | 0 <= i < j < |r|
      ensures Newer(ids, r[i], r[j])
    {
      assert r[j] == rest[j - head] && rest[j - head] in rest;
      if i < head {
        LastIsNewest(ids, r[j]);
      } else {
        assert r[i] == rest[i - head];
        assert Newer(ids[..n], rest[i - head], rest[j - head]);
        NewerInPrefix(ids, n, r[i], r[j]);
      }
    }
  }

  /** The listing is ordered newest first. */
  lemma {:induction false} NewestFirstOrdered(ids: seq<TrackId>, tracks: map<TrackId, Track>, f: Filter)
    requires forall id :: id in ids ==> id in tracks
    ensures NewestOrdered(ids, NewestFirst(ids, tracks, f))
  {
    if ids != [] {
      var n := |ids| - 1;
      var rest := NewestFirst(ids[..n], tracks, f);
      NewestFirstOrdered(ids[..n], tracks, f);
      OrderedAfterStep(ids, rest, NewestFirst(ids, tracks, f), Matches(f, tracks[ids[n]]));
    }
  }

  /** No two tracks share a key: the unique index on `key`. */
  predicate KeysUnique(tracks: map<TrackId, Track>) {
    forall a, b :: a in tracks && b in tracks && a != b ==> tracks[a].key != tracks[b].key
  }

  /** A track as the collection holds it: validated, with its key derived
      from its own artist and title. */
  predicate Stored(t: Track) {
    Validates(t) && KeyInSync(t)
  }

  /** Every track of the collection is stored as validated. */
  ghost predicate AllStored(tracks: map<TrackId, Track>) {
    forall id :: id in tracks ==> Stored(tracks[id])
  }

  /** The collection's invariant: `order` lists each stored id once, every id
      is below the next one to assign, every track is stored as validated,
      and keys are unique. */
  ghost predicate Consistent(tracks: map<TrackId, Track>, order: seq<TrackId>, nextId: TrackId) {
    && (forall id :: id in tracks <==> id in order)
    && NoDuplicates(order)
    && (forall id :: id in tracks ==> id < nextId)
    && AllStored(tracks)
    && KeysUnique(tracks)
  }

  /** Storing a stored track under some id keeps every track stored. */
  lemma AllStoredAfter(tracks: map<TrackId, Track>, id: TrackId, t: Track)
    requires AllStored(tracks) && Stored(t)
    ensures AllStored(tracks[id := t])
  {
    var nt := tracks[id := t];
    forall x | x in nt
      ensures Stored(nt[x])
    {
      if x != id {
        assert nt[x] == tracks[x];
      }
    }
  }

  /** Storing a track under some id keeps keys unique when no other id holds its key. */
  lemma KeysUniqueAfter(tracks: map<TrackId, Track>, id: TrackId, t: Track)
    requires KeysUnique(tracks)
    requires forall other :: other in tracks && other != id ==> tracks[other].key != t.key
    ensures KeysUnique(tracks[id := t])
  {
    var nt := tracks[id := t];
    forall a, b | a in nt && b in nt && a != b
      ensures nt[a].key != nt[b].key
    {
      if a != id && b != id {
        assert nt[a] == tracks[a] && nt[b] == tracks[b];
      }
    }
  }

  /** Inserting a stored track whose key no track holds, under the next id,
      keeps the invariant. */
  lemma ConsistentInsert(tracks: map<TrackId, Track>, order: seq<TrackId>, nextId: TrackId, t: Track)
    requires Consistent(tracks, order, nextId) && Stored(t)
    requires forall id :: id in order ==> tracks[id].key != t.key
    ensures nextId !in tracks
    ensures Consistent(tracks[nextId := t], order + [nextId], nextId + 1)
  {
    AllStoredAfter(tracks, nextId, t);
    KeysUniqueAfter(tracks, nextId, t);
    AppendFreshNoDuplicates(order, nextId);
  }

  /** Appending an id the sequence does not hold keeps it free of duplicates. */
  lemma AppendFreshNoDuplicates(order: seq<TrackId>, id: TrackId)
    requires NoDuplicates(order) && id !in order
    ensures NoDuplicates(order + [id])
  {
    var o := order + [id];
    forall i, j | 0 <= i < j < |o|
      ensures o[i] != o[j]
    {
      if j == |order| {
        assert o[i] == order[i];
      } else {
        assert o[i] == order[i] && o[j] == order[j];
      }
    }
  }

  /** Replacing a stored track by another whose key no other track holds
      keeps the invariant. */
  lemma ConsistentReplace(tracks: map<TrackId, Track>, order: seq<TrackId>, nextId: TrackId, id: TrackId, t: Track)
    requires Consistent(tracks, order, nextId) && id in tracks && Stored(t)
    requires forall other :: other in order && other != id ==> tracks[other].key != t.key
    ensures Consistent(tracks[id := t], order, nextId)
  {
    AllStoredAfter(tracks, id, t);
    KeysUniqueAfter(tracks, id, t);
  }

  /** When the lookup of a key finds no track, or only the track `id`, no
      other track holds that key. */
  lemma KeyFreeFor(tracks: map<TrackId, Track>, order: seq<TrackId>, nextId: TrackId, id: TrackId, key: Val)
    requires Consistent(tracks, order, nextId) && id in tracks
    requires FindFirst(order, tracks, ByKey(key)).None? || FindFirst(order, tracks, ByKey(key)) == Some(id)
    ensures forall other :: other in order && other != id ==> tracks[other].key != key
  {
  }

  /** A valid update of track `id` whose new key no other track holds keeps
      the invariant. */
  lemma ConsistentUpdate(tracks: map<TrackId, Track>, order: seq<TrackId>, nextId: TrackId, id: TrackId, u: map<string, Val>)
    requires Consistent(tracks, order, nextId) && id in tracks && UpdateValid(u)
    requires var h := FindFirst(order, tracks, ByKey(UpdatedTrack(tracks[id], u).key)); h.None? || h == Some(id)
    ensures Consistent(tracks[id := UpdatedTrack(tracks[id], u)], order, nextId)
  {
    var t := UpdatedTrack(tracks[id], u);
    UpdatedTrackValid(tracks[id], u);
    KeyFreeFor(tracks, order, nextId, id, t.key);
    ConsistentReplace(tracks, order, nextId, id, t);
  }

  /** Removing a track, from the map and from the order, keeps the invariant. */
  lemma ConsistentRemove(tracks: map<TrackId, Track>, order: seq<TrackId>, nextId: TrackId, id: TrackId)
    requires Consistent(tracks, order, nextId)
    ensures Consistent(tracks - {id}, Without(order, id), nextId)
  {
    WithoutMembers(order, id);
    WithoutNoDuplicates(order, id);
  }

  /** The validators do not look at the genre fields the pre-save hook sets. */
  lemma ValidatesIgnoresGenres(t: Track, genres: seq<string>, primaryGenre: Val)
    ensures Validates(t.(genres := genres, primaryGenre := primaryGenre)) == Validates(t)
  {
  }

  /** The tracks stored under `ids`, in the same order. */
  function TracksOf(ids: seq<TrackId>, tracks: map<TrackId, Track>): (r: seq<Track>)
    requires forall id :: id in ids ==> id in tracks
    ensures |r| == |ids| && forall i :: 0 <= i < |ids| ==> r[i] == tracks[ids[i]]
  {
    seq(|ids|, i requires 0 <= i < |ids| => tracks[ids[i]])
  }

  /** The number of items before page `p` of `l` items, `(p - 1) * l`,
      counted out page by page. */
  function Offset(p: nat, l: nat): nat
    requires p >= 1
  {
    if p == 1 then 0 else Offset(p - 1, l) + l
  }

  lemma {:induction false} OffsetIsProduct(p: nat, l: nat)
    requires p >= 1
    ensures Offset(p, l) == (p - 1) * l
  {
    if p > 1 {
      OffsetIsProduct(p - 1, l);
      assert (p - 1) * l == (p - 2) * l + l;
    }
  }

  /** The page the item at position `k` (from 0) falls on, pages of `l`
      items numbered from 1, and its slot on that page. */
  function PageOf(k: nat, l: nat): nat
    requires l >= 1
    decreases k
  {
    if k < l then 1 else PageOf(k - l, l) + 1
  }

  function SlotOf(k: nat, l: nat): nat
    requires l >= 1
    decreases k
  {
    if k < l then k else SlotOf(k - l, l)
  }

  /** Every position is the offset of its page plus its slot. */
  lemma {:induction false} PageOfSlot(k: nat, l: nat)
    requires l >= 1
    ensures PageOf(k, l) >= 1 && SlotOf(k, l) < l
    ensures Offset(PageOf(k, l), l) + SlotOf(k, l) == k
    decreases k
  {
    if k >= l {
      PageOfSlot(k - l, l);
    }
  }

  /** Page `p` of `l` items: the `l` items after the first `(p - 1) * l`. */
  function Page<T>(xs: seq<T>, p: nat, l: nat): (r: seq<T>)
    requires p >= 1 && l >= 1
    ensures |r| <= l
    ensures Offset(p, l) >= |xs| ==> r == []
    ensures Offset(p, l) < |xs| ==> |r| == if |xs| - Offset(p, l) < l then |xs| - Offset(p, l) else l
    ensures forall i :: 0 <= i < |r| ==> Offset(p, l) + i < |xs| && r[i] == xs[Offset(p, l) + i]
  {
    var start := Offset(p, l);
    if start >= |xs| then []
    else if |xs| - start < l then xs[start..]
    else xs[start..start + l]
  }

  /** The source's test for a next page, `page * limit < total`, holds
      exactly when the next page has items. */
  lemma HasNextIsNextPage<T>(xs: seq<T>, p: nat, l: nat)
    requires p >= 1 && l >= 1
    ensures p * l < |xs| <==> Page(xs, p + 1, l) != []
  {
    OffsetIsProduct(p + 1, l);
    if Offset(p + 1, l) < |xs| {
      assert Page(xs, p + 1, l)[0] == xs[Offset(p + 1, l)];
    }
  }

  /** The item at position `k` is in its slot on its page. */
  lemma PageCovers<T>(xs: seq<T>, k: nat, l: nat)
    requires k < |xs| && l >= 1
    ensures SlotOf(k, l) < |Page(xs, PageOf(k, l), l)|
    ensures Page(xs, PageOf(k, l), l)[SlotOf(k, l)] == xs[k]
  {
    PageOfSlot(k, l);
  }

  /** The body of a listing response. */
  datatype ListPage = ListPage(items: seq<Track>, page: int, limit: int, total: int, hasNext: bool)

  // ---------------------------------------------------------------------------
  // Requests

  /** The fields POST reads from its body; a missing body reads as all absent. */
  datatype PostBody = PostBody(
    title: Val, artist: Val, coverArtUrl: Val, soundClipUrl: Val, sourceUrl: Val, genre: Val)

  /** What POST gets from enrichment: nothing unless enrichment is enabled and
      the cover or the clip is missing (falsy). */
  function PostEnrichment(b: PostBody, enabled: bool, first: Option<MusicService.SearchResult>): MusicService.Enrichment {
    if enabled && (!Truthy(b.coverArtUrl) || !Truthy(b.soundClipUrl))
    then MusicService.EnrichTrack(b.title, b.artist, b.coverArtUrl, b.soundClipUrl, first)
    else MusicService.Enrichment(None, MusicService.NoMeta)
  }

  /** The object POST hands to `Track.create`: each of cover, clip and genre
      is the caller's value if not null, else the provider's, else null; the
      source URL is the caller's or null. */
  function PostPayload(b: PostBody, meta: MusicService.Meta): Payload {
    Payload(b.title, b.artist, Str(PostKey(b.artist, b.title, b.soundClipUrl)),
            Coalesce(b.coverArtUrl, Coalesce(meta.coverArtUrl, Null)),
            Coalesce(b.soundClipUrl, Coalesce(meta.soundClipUrl, Null)),
            Coalesce(b.sourceUrl, Null),
            Coalesce(b.genre, Coalesce(meta.genre, Null)))
  }

  /** A value the caller supplied, even an empty string, wins over the
      provider's; the provider fills only what the caller left out; the
      provider's source URL is never used. */
  lemma PostPayloadPrecedence(b: PostBody, meta: MusicService.Meta)
    ensures var p := PostPayload(b, meta);
      && p.coverArtUrl == (if b.coverArtUrl.Str? then b.coverArtUrl else meta.coverArtUrl)
      && p.soundClipUrl == (if b.soundClipUrl.Str? then b.soundClipUrl else meta.soundClipUrl)
      && p.genre == (if b.genre.Str? then b.genre else meta.genre)
      && p.sourceUrl == b.sourceUrl
      && p.key == Str(KeyOf(b.artist, b.title))
  {
  }

  /** An empty-string cover both triggers the lookup (when enabled and the
      title and artist are there) and is the value handed on, so the
      provider's artwork is fetched and then dropped. */
  lemma EmptyCoverLooksUpButIsKept(b: PostBody, first: Option<MusicService.SearchResult>)
    requires b.coverArtUrl == Str("") && Truthy(b.title) && Truthy(b.artist)
    ensures PostEnrichment(b, true, first).request.Some?
    ensures PostPayload(b, PostEnrichment(b, true, first).meta).coverArtUrl == Str("")
  {
  }

  /** The fields PUT copies from its body. */
  const Allowed: seq<string> := ["title", "artist", "coverArtUrl", "soundClipUrl", "sourceUrl", "genre"]

  /** The body restricted to the allowed fields. */
  function Whitelisted(body: map<string, Val>): map<string, Val> {
    map k | k in body && k in Allowed :: body[k]
  }

  /** The update validators: each field present is checked by its schema
      validators after its trim setter (`required` fails on null and on "";
      the URL validators); `genre` is not a schema path and is dropped. */
  predicate UpdateValid(u: map<string, Val>) {
    && ("title" in u ==> Truthy(TrimVal(u["title"])))
    && ("artist" in u ==> Truthy(TrimVal(u["artist"])))
    && ("coverArtUrl" in u ==> IsHttpUrl(TrimVal(u["coverArtUrl"])))
    && ("soundClipUrl" in u ==> IsHttpUrl(TrimVal(u["soundClipUrl"])))
    && ("sourceUrl" in u ==> IsHttpUrl(TrimVal(u["sourceUrl"])))
  }

  function FieldAfter(u: map<string, Val>, name: string, current: Val): Val {
    if name in u then TrimVal(u[name]) else current
  }

  /** The stored track after `findByIdAndUpdate(id, updates)` as the route
      calls it: the document hooks do not run for this query, so the key is
      left as it was. */
  function ApplyUpdateAsWritten(t: Track, u: map<string, Val>): Track {
    t.(title := FieldAfter(u, "title", t.title),
       artist := FieldAfter(u, "artist", t.artist),
       coverArtUrl := FieldAfter(u, "coverArtUrl", t.coverArtUrl),
       soundClipUrl := FieldAfter(u, "soundClipUrl", t.soundClipUrl),
       sourceUrl := FieldAfter(u, "sourceUrl", t.sourceUrl))
  }

  /** The update with the key re-derived from the new artist and title, as
      the pre-validate hook does for documents. */
  function UpdatedTrack(t: Track, u: map<string, Val>): Track {
    var n := ApplyUpdateAsWritten(t, u);
    n.(key := Str(KeyOf(n.artist, n.title)))
  }

  /** As written, an update keeps the old key whatever it does to the title
      and artist; a key in sync with the old parts is out of sync as soon as
      the new parts key differently. */
  lemma AsWrittenKeepsKey(t: Track, u: map<string, Val>)
    requires KeyInSync(t)
    ensures ApplyUpdateAsWritten(t, u).key == t.key
    ensures var n := ApplyUpdateAsWritten(t, u);
      KeyInSync(n) <==> KeyOf(n.artist, n.title) == KeyOf(t.artist, t.title)
  {
  }

  /** The track "joni" / "blue" renamed to "river" keeps the key "joni — blue". */
  lemma AsWrittenStaleKeyExample()
    ensures var t := Track(Str("blue"), Str("joni"), Str("joni" + Separator + "blue"),
                           Null, Null, Null, None, None, Null, [], 0, 0);
      && KeyInSync(t)
      && ApplyUpdateAsWritten(t, map["title" := Str("river")]).key == Str("joni" + Separator + "blue")
      && !KeyInSync(ApplyUpdateAsWritten(t, map["title" := Str("river")]))
  {
    var t := Track(Str("blue"), Str("joni"), Str("joni" + Separator + "blue"),
                   Null, Null, Null, None, None, Null, [], 0, 0);
    var n := ApplyUpdateAsWritten(t, map["title" := Str("river")]);
    TrimOfTrimmed("river");
    assert n == t.(title := Str("river"));
    KeyOfOfNormal("joni", "blue");
    KeyOfOfNormal("joni", "river");
    assert |"joni" + Separator + "blue"| != |"joni" + Separator + "river"|;
  }

  /** A valid update of a valid track is valid, its key is in sync, and only
      the fields present in the update (and the key) change. */
  lemma UpdatedTrackValid(t: Track, u: map<string, Val>)
    requires Validates(t) && UpdateValid(u)
    ensures Validates(UpdatedTrack(t, u)) && KeyInSync(UpdatedTrack(t, u))
    ensures var n := UpdatedTrack(t, u);
      && ("title" !in u ==> n.title == t.title) && ("artist" !in u ==> n.artist == t.artist)
      && ("coverArtUrl" !in u ==> n.coverArtUrl == t.coverArtUrl)
      && ("soundClipUrl" !in u ==> n.soundClipUrl == t.soundClipUrl)
      && ("sourceUrl" !in u ==> n.sourceUrl == t.sourceUrl)
      && n.genres == t.genres && n.primaryGenre == t.primaryGenre
      && n.likesCount == t.likesCount && n.soundBytesCount == t.soundBytesCount
  {
    var n := UpdatedTrack(t, u);
    assert Truthy(n.key) by {
      assert |n.key.s| >= |Separator|;
    }
  }

  /** PUT ignores `genre` and every field outside the allowed list. */
  lemma UpdateIgnoresGenreAndOthers(t: Track, body: map<string, Val>, k: string, v: Val)
    requires k !in Allowed || k == "genre"
    ensures UpdatedTrack(t, Whitelisted(body[k := v])) == UpdatedTrack(t, Whitelisted(body))
    ensures UpdateValid(Whitelisted(body[k := v])) == UpdateValid(Whitelisted(body))
  {
    var w1 := Whitelisted(body[k := v]);
    var w2 := Whitelisted(body);
    forall name | name in Allowed && name != "genre"
      ensures (name in w1 <==> name in w2) && (name in w1 ==> w1[name] == w2[name])
    {
    }
  }

  datatype CreateError = Invalid | DuplicateKey

  datatype Created = Created(id: TrackId) | Rejected(error: CreateError)

  // ---------------------------------------------------------------------------
  // The catalog

  /** The Track collection: documents by id, the order they were inserted in
      (standing for `createdAt`), and the next id to assign. */
  class Catalog {
    var tracks: map<TrackId, Track>
    var order: seq<TrackId>
    var nextId: TrackId

    ghost predicate Valid()
      reads this
    {
      Consistent(tracks, order, nextId)
    }

    constructor ()
      ensures Valid() && tracks == map[] && order == []
    {
      tracks, order, nextId := map[], [], 0;
    }

    /** `Track.findOne(q)` */
    function Find(q: Query): Option<TrackId>
      reads this
      requires Valid()
    {
      FindFirst(order, tracks, q)
    }

    /** The ids the filter of `q` matches, newest first. */
    function Matching(q: Val): seq<TrackId>
      reads this
      requires Valid()
    {
      NewestFirst(order, tracks, BuildFilter(q))
    }

    /** GET `/tracks`: page `p` of `l` matching tracks, newest first, with
        the total count and whether matches remain past this page. */
    function List(q: Val, page: Val, limit: Val): (r: ListPage)
      reads this
      requires Valid()
      ensures r.page >= 1 && 1 <= r.limit <= 50
      ensures r.page == ClampPage(page) && r.limit == ClampLimit(limit)
      ensures r.total == |Matching(q)|
      ensures r.items == Page(TracksOf(Matching(q), tracks), r.page, r.limit)
      ensures r.hasNext <==> Page(TracksOf(Matching(q), tracks), r.page + 1, r.limit) != []
    {
      var p := ClampPage(page);
      var l := ClampLimit(limit);
      var ids := Matching(q);
      var ts := TracksOf(ids, tracks);
      HasNextIsNextPage(ts, p, l);
      ListPage(Page(ts, p, l), p, l, |ids|, p * l < |ids|)
    }

    /** Every match is listed: the `k`-th match (from 0), newest first, is
        on the page and in the slot its position gives (see `PageOfSlot`). */
    lemma ListCoversEveryMatch(q: Val, k: nat, l: nat)
      requires Valid() && 1 <= l <= 50 && k < |Matching(q)|
      ensures var r := List(q, Str(DecimalString(PageOf(k, l))), Str(DecimalString(l)));
        SlotOf(k, l) < |r.items| && r.items[SlotOf(k, l)] == tracks[Matching(q)[k]]
    {
      ClampPageOfDecimal(PageOf(k, l));
      ClampLimitOfDecimal(l);
      var ts := TracksOf(Matching(q), tracks);
      var r := List(q, Str(DecimalString(PageOf(k, l))), Str(DecimalString(l)));
      assert r.items == Page(ts, PageOf(k, l), l);
      PageCovers(ts, k, l);
    }

    /** GET `/tracks/:id` */
    method Get(id: TrackId) returns (status: int, track: Option<Track>)
      ensures id in tracks ==> status == 200 && track == Some(tracks[id])
      ensures id !in tracks ==> status == 404 && track.None?
    {
      if id in tracks {
        return 200, Some(tracks[id]);
      }
      return 404, None;
    }

    /** `Track.create(p)`: a new document runs the pre-validate hook, is
        validated, runs the pre-save hook and is inserted under a fresh id
        unless another track holds its key. */
    method Create(p: Payload) returns (r: Created)
      requires Valid()
      modifies this
      ensures Valid()
      ensures r == Rejected(Invalid) <==> !Validates(NewTrack(p))
      ensures r == Rejected(DuplicateKey) <==>
        Validates(NewTrack(p)) && old(Find(ByKey(NewTrack(p).key))).Some?
      ensures r.Rejected? ==> tracks == old(tracks) && order == old(order)
      ensures r.Created? ==> r.id !in old(tracks) && tracks == old(tracks)[r.id := NewTrack(p)]
                             && order == old(order) + [r.id]
    {
      var doc := new TrackDocument(p);
      doc.SetKeyFromParts();
      var validated := doc.Value();
      doc.NormalizeGenres();
      var t := doc.Value();
      assert t == NewTrack(p);
      ValidatesIgnoresGenres(validated, t.genres, t.primaryGenre);
      assert t == validated.(genres := t.genres, primaryGenre := t.primaryGenre);
      if !Validates(validated) {
        return Rejected(Invalid);
      }
      if Find(ByKey(t.key)).Some? {
        return Rejected(DuplicateKey);
      }
      NewTrackValidation(p);
      ConsistentInsert(tracks, order, nextId, t);
      tracks := tracks[nextId := t];
      order := order + [nextId];
      r := Created(nextId);
      nextId := nextId + 1;
    }

    /** POST `/tracks`: 400 without a title or an artist; the track with the
        key of the artist and title if there is one; otherwise a new track
        built from the caller's fields and, where enabled, the enrichment
        lookup. The lookup's URL is returned as `lookup`. */
    method Post(b: PostBody, enrichEnabled: bool, first: Option<MusicService.SearchResult>)
      returns (status: int, track: Option<Track>, lookup: Option<string>)
      requires Valid()
      modifies this
      ensures Valid()
      ensures status == 201 || status == 400 || status == 500
      ensures !Truthy(b.title) || !Truthy(b.artist) ==>
        status == 400 && track.None? && lookup.None? && tracks == old(tracks) && order == old(order)
      ensures Truthy(b.title) && Truthy(b.artist) && old(Find(ByKey(Str(KeyOf(b.artist, b.title))))).Some? ==>
        && status == 201 && lookup.None?
        && track == Some(old(tracks)[old(Find(ByKey(Str(KeyOf(b.artist, b.title))))).value])
        && tracks == old(tracks) && order == old(order)
      ensures Truthy(b.title) && Truthy(b.artist) && old(Find(ByKey(Str(KeyOf(b.artist, b.title))))).None? ==>
        var e := PostEnrichment(b, enrichEnabled, first);
        var t := NewTrack(PostPayload(b, e.meta));
        && lookup == e.request
        && (Validates(t) ==>
              && status == 201 && track == Some(t)
              && |order| == |old(order)| + 1 && order[..|old(order)|] == old(order)
              && order[|old(order)|] !in old(tracks)
              && tracks == old(tracks)[order[|old(order)|] := t])
        && (!Validates(t) ==> status == 500 && track.None? && tracks == old(tracks) && order == old(order))
    {
      if !Truthy(b.title) || !Truthy(b.artist) {
        return 400, None, None;
      }
      var key := PostKey(b.artist, b.title, b.soundClipUrl);
      var hit := Find(ByKey(Str(key)));
      if hit.Some? {
        return 201, Some(tracks[hit.value]), None;
      }
      var e := PostEnrichment(b, enrichEnabled, first);
      lookup := e.request;
      var p := PostPayload(b, e.meta);
      NewTrackKey(p);
      var r := Create(p);
      match r
      case Created(id) =>
        status, track := 201, Some(tracks[id]);
      case Rejected(error) =>
        status, track := if error == DuplicateKey then 409 else 500, None;
    }

    /** PUT `/tracks/:id` with the key re-derived: 500 when a field fails
        validation, 404 for an unknown id, 409 when the new key belongs to
        another track, else the updated track. */
    method Update(id: TrackId, body: map<string, Val>) returns (status: int, track: Option<Track>)
      requires Valid()
      modifies this
      ensures Valid()
      ensures order == old(order)
      ensures !UpdateValid(Whitelisted(body)) ==> status == 500 && track.None? && tracks == old(tracks)
      ensures UpdateValid(Whitelisted(body)) && id !in old(tracks) ==>
        status == 404 && track.None? && tracks == old(tracks)
      ensures UpdateValid(Whitelisted(body)) && id in old(tracks) ==>
        var t := UpdatedTrack(old(tracks)[id], Whitelisted(body));
        var holder := old(Find(ByKey(t.key)));
        && (holder.Some? && holder.value != id ==> status == 409 && track.None? && tracks == old(tracks))
        && (holder.None? || holder.value == id ==>
              status == 200 && track == Some(t) && tracks == old(tracks)[id := t])
    {
      var updates := Whitelist(body);
      if !UpdateValid(updates) {
        return 500, None;
      }
      if id !in tracks {
        return 404, None;
      }
      var t := UpdatedTrack(tracks[id], updates);
      var holder := Find(ByKey(t.key));
      if holder.Some? && holder.value != id {
        return 409, None;
      }
      ConsistentUpdate(tracks, order, nextId, id, updates);
      tracks := tracks[id := t];
      return 200, Some(t);
    }

    /** DELETE `/tracks/:id` */
    method Delete(id: TrackId) returns (status: int, deleted: Option<TrackId>)
      requires Valid()
      modifies this
      ensures Valid()
      ensures id in old(tracks) ==>
        status == 200 && deleted == Some(id) && tracks == old(tracks) - {id} && order == Without(old(order), id)
      ensures id !in old(tracks) ==> status == 404 && deleted.None? && tracks == old(tracks) && order == old(order)
    {
      if id !in tracks {
        return 404, None;
      }
      WithoutMembers(order, id);
      WithoutNoDuplicates(order, id);
      tracks := tracks - {id};
      order := Without(order, id);
      return 200, Some(id);
    }
  }

  /** The PUT whitelist loop: copies the allowed fields present in the body. */
  method Whitelist(body: map<string, Val>) returns (updates: map<string, Val>)
    ensures updates == Whitelisted(body)
  {
    updates := map[];
    var i := 0;
    while i < |Allowed|
      invariant 0 <= i <= |Allowed|
      invariant forall k :: k in updates <==> k in body && k in Allowed[..i]
      invariant forall k :: k in updates ==> updates[k] == body[k]
    {
      var k := Allowed[i];
      if k in body {
        updates := updates[k := body[k]];
      }
      i := i + 1;
    }
    assert Allowed[..i] == Allowed;
    assert updates.Keys == Whitelisted(body).Keys;
  }
}
