/**
 * The enrichment service: builds an iTunes Search query for a track, rewrites
 * artwork URLs to the 600x600 rendition, and decides which missing fields the
 * first search result fills in. The HTTP fetch itself is not modelled: its
 * outcome (the first result, or nothing) is a parameter.
 */
module MusicService {
  import opened JsText

  newtype byte = b: int | 0 <= b < 256

  // ---------------------------------------------------------------------------
  // encodeURIComponent

  /** The characters `encodeURIComponent` leaves as they are. */
  predicate IsUnreserved(c: char) {
    ('A' <= c <= 'Z') || ('a' <= c <= 'z') || ('0' <= c <= '9')
    || c == '-' || c == '_' || c == '.' || c == '!' || c == '~' || c == '*'
    || c == '\'' || c == '(' || c == ')'
  }

  /** What can appear in an encoded component: unreserved characters and `%`. */
  predicate IsUriSafe(e: string) {
    forall i :: 0 <= i < |e| ==> IsUnreserved(e[i]) || e[i] == '%'
  }

  /** The UTF-8 encoding of one Unicode scalar value, six bits at a time. */
  function Utf8(c: char): (bs: seq<byte>)
    ensures 1 <= |bs| <= 4
    ensures |bs| == 1 <==> c as int < 0x80
    ensures |bs| == 1 ==> bs[0] as int == c as int
  {
    var n := c as int;
    var r1, q1 := n % 64, n / 64;
    var r2, q2 := q1 % 64, q1 / 64;
    var r3, q3 := q2 % 64, q2 / 64;
    if n < 0x80 then [n as byte]
    else if n < 0x800 then [(0xC0 + q1) as byte, (0x80 + r1) as byte]
    else if n < 0x10000 then [(0xE0 + q2) as byte, (0x80 + r2) as byte, (0x80 + r1) as byte]
    else [(0xF0 + q3) as byte, (0x80 + r3) as byte, (0x80 + r2) as byte, (0x80 + r1) as byte]
  }

  /** The UTF-8 encoding of a string. */
  function Utf8Of(s: string): seq<byte> {
    if s == [] then [] else Utf8(s[0]) + Utf8Of(s[1..])
  }

  /** Upper-case hexadecimal digit, as `encodeURIComponent` writes it. */
  function HexDigit(d: int): char
    requires 0 <= d < 16
  {
    if d < 10 then ('0' as int + d) as char else ('A' as int + d - 10) as char
  }

  function PercentByte(b: byte): string {
    ['%', HexDigit(b as int / 16), HexDigit(b as int % 16)]
  }

  /** The `%XX` escapes of a byte sequence, three characters per byte. */
  function PercentBytes(bs: seq<byte>): (r: string)
    ensures IsUriSafe(r)
    ensures |r| == 3 * |bs|
  {
    if bs == [] then [] else PercentByte(bs[0]) + PercentBytes(bs[1..])
  }

  /** One character of `encodeURIComponent`: an unreserved character as
      itself, any other as the escapes of its UTF-8 bytes. */
  function EncodeChar(c: char): (e: string)
    ensures IsUriSafe(e)
    ensures IsUnreserved(c) ==> e == [c]
  {
    if IsUnreserved(c) then [c] else PercentBytes(Utf8(c))
  }

  /** `encodeURIComponent(s)`: unreserved characters stay, every other
      character becomes the `%XX` escapes of its UTF-8 bytes. The result holds
      neither `&` nor `=`, so it cannot split a query parameter. */
  function EncodeUriComponent(s: string): (e: string)
    ensures IsUriSafe(e)
    ensures (forall i :: 0 <= i < |s| ==> IsUnreserved(s[i])) ==> e == s
  {
    if s == [] then []
    else
      var e := EncodeChar(s[0]) + EncodeUriComponent(s[1..]);
      assert s == [s[0]] + s[1..];
      e
  }

  // ---------------------------------------------------------------------------
  // decodeURIComponent, the partner of the encoder

  predicate IsHexDigit(c: char) {
    ('0' <= c <= '9') || ('A' <= c <= 'F') || ('a' <= c <= 'f')
  }

  function HexValue(c: char): (d: int)
    requires IsHexDigit(c)
    ensures 0 <= d < 16
  {
    if '0' <= c <= '9' then c as int - '0' as int
    else if 'A' <= c <= 'F' then c as int - 'A' as int + 10
    else c as int - 'a' as int + 10
  }

  lemma HexValueOfDigit(d: int)
    requires 0 <= d < 16
    ensures IsHexDigit(HexDigit(d)) && HexValue(HexDigit(d)) == d
  {
  }

  function Prepend(bs: seq<byte>, r: Option<seq<byte>>): Option<seq<byte>> {
    if r.Some? then Some(bs + r.value) else None
  }

  /** Undoes the `%XX` escapes; a literal character stands for its own UTF-8
      bytes; a `%` not followed by two hexadecimal digits is malformed. */
  function PercentDecode(s: string): Option<seq<byte>> {
    if s == [] then Some([])
    else if s[0] == '%' then
      if |s| >= 3 && IsHexDigit(s[1]) && IsHexDigit(s[2]) then
        Prepend([(HexValue(s[1]) * 16 + HexValue(s[2])) as byte], PercentDecode(s[3..]))
      else None
    else Prepend(Utf8(s[0]), PercentDecode(s[1..]))
  }

  predicate IsContinuation(b: byte) {
    0x80 <= b < 0xC0
  }

  /** The first character of a UTF-8 byte sequence and its length in bytes;
      overlong forms, surrogates and values past U+10FFFF are rejected. */
  function DecodeFirst(bs: seq<byte>): (r: Option<(char, nat)>)
    requires bs != []
    ensures r.Some? ==> 1 <= r.value.1 <= |bs|
  {
    var b0 := bs[0] as int;
    if b0 < 0x80 then Some((b0 as char, 1))
    else if 0xC2 <= b0 < 0xE0 && |bs| >= 2 && IsContinuation(bs[1]) then
      var n := (b0 - 0xC0) * 64 + (bs[1] as int - 0x80);
      Some((n as char, 2))
    else if 0xE0 <= b0 < 0xF0 && |bs| >= 3 && IsContinuation(bs[1]) && IsContinuation(bs[2]) then
      var n := (b0 - 0xE0) * 4096 + (bs[1] as int - 0x80) * 64 + (bs[2] as int - 0x80);
      if n >= 0x800 && !(0xD800 <= n < 0xE000) then Some((n as char, 3)) else None
    else if 0xF0 <= b0 < 0xF5 && |bs| >= 4
      && IsContinuation(bs[1]) && IsContinuation(bs[2]) && IsContinuation(bs[3]) then
      var n := (b0 - 0xF0) * 262144 + (bs[1] as int - 0x80) * 4096
        + (bs[2] as int - 0x80) * 64 + (bs[3] as int - 0x80);
      if 0x10000 <= n < 0x110000 then Some((n as char, 4)) else None
    else None
  }

  function Utf8Decode(bs: seq<byte>): Option<string>
    decreases |bs|
  {
    if bs == [] then Some([])
    else match DecodeFirst(bs)
      case None => None
      case Some((c, k)) =>
        var rest := Utf8Decode(bs[k..]);
        if rest.Some? then Some([c] + rest.value) else None
  }

  /** `decodeURIComponent(s)`; `None` where it would throw a `URIError`. */
  function DecodeUriComponent(s: string): Option<string> {
    match PercentDecode(s)
    case None => None
    case Some(bs) => Utf8Decode(bs)
  }

  lemma DecodeFirstOfUtf8(c: char, rest: seq<byte>)
    ensures DecodeFirst(Utf8(c) + rest) == Some((c, |Utf8(c)|))
  {
    var u := Utf8(c);
    var bs := u + rest;
    assert forall i :: 0 <= i < |u| ==> bs[i] == u[i];
    var n := c as int;
    if n < 0x80 {
    } else if n < 0x800 {
      DecodeFirstOfTwo(c, bs);
    } else if n < 0x10000 {
      DecodeFirstOfThree(c, bs);
    } else {
      DecodeFirstOfFour(c, bs);
    }
  }

  lemma DecodeFirstOfTwo(c: char, bs: seq<byte>)
    requires 0x80 <= c as int < 0x800 && |bs| >= 2
    requires bs[0] == Utf8(c)[0] && bs[1] == Utf8(c)[1]
    ensures DecodeFirst(bs) == Some((c, 2))
  {
    var n := c as int;
    var r1, q1 := n % 64, n / 64;
    assert bs[0] as int == 0xC0 + q1 && bs[1] as int == 0x80 + r1;
    assert (bs[0] as int - 0xC0) * 64 + (bs[1] as int - 0x80) == n;
  }

  lemma DecodeFirstOfThree(c: char, bs: seq<byte>)
    requires 0x800 <= c as int < 0x10000 && |bs| >= 3
    requires bs[0] == Utf8(c)[0] && bs[1] == Utf8(c)[1] && bs[2] == Utf8(c)[2]
    ensures DecodeFirst(bs) == Some((c, 3))
  {
    var n := c as int;
    var r1, q1 := n % 64, n / 64;
    var r2, q2 := q1 % 64, q1 / 64;
    assert bs[0] as int == 0xE0 + q2 && bs[1] as int == 0x80 + r2 && bs[2] as int == 0x80 + r1;
    assert (bs[0] as int - 0xE0) * 4096 + (bs[1] as int - 0x80) * 64 + (bs[2] as int - 0x80) == n;
  }

  lemma DecodeFirstOfFour(c: char, bs: seq<byte>)
    requires 0x10000 <= c as int && |bs| >= 4
    requires bs[0] == Utf8(c)[0] && bs[1] == Utf8(c)[1] && bs[2] == Utf8(c)[2] && bs[3] == Utf8(c)[3]
    ensures DecodeFirst(bs) == Some((c, 4))
  {
    var n := c as int;
    var r1, q1 := n % 64, n / 64;
    var r2, q2 := q1 % 64, q1 / 64;
    var r3, q3 := q2 % 64, q2 / 64;
    assert bs[0] as int == 0xF0 + q3 && bs[1] as int == 0x80 + r3;
    assert bs[2] as int == 0x80 + r2 && bs[3] as int == 0x80 + r1;
    assert (bs[0] as int - 0xF0) * 262144 + (bs[1] as int - 0x80) * 4096
      + (bs[2] as int - 0x80) * 64 + (bs[3] as int - 0x80) == n;
  }

  lemma {:induction false} Utf8DecodeOfUtf8(s: string)
    ensures Utf8Decode(Utf8Of(s)) == Some(s)
  {
    if s != [] {
      var bs := Utf8Of(s);
      DecodeFirstOfUtf8(s[0], Utf8Of(s[1..]));
      assert bs[|Utf8(s[0])|..] == Utf8Of(s[1..]);
      Utf8DecodeOfUtf8(s[1..]);
      assert s == [s[0]] + s[1..];
    }
  }

  lemma PercentDecodeByte(b: byte, rest: string)
    ensures PercentDecode(PercentByte(b) + rest) == Prepend([b], PercentDecode(rest))
  {
    var s := PercentByte(b) + rest;
    HexValueOfDigit(b as int / 16);
    HexValueOfDigit(b as int % 16);
    assert s[0] == '%' && s[1] == HexDigit(b as int / 16) && s[2] == HexDigit(b as int % 16);
    assert (HexValue(s[1]) * 16 + HexValue(s[2])) as byte == b;
    assert s[3..] == rest;
  }

  lemma PrependTwice(a: seq<byte>, b: seq<byte>, r: Option<seq<byte>>)
    ensures Prepend(a, Prepend(b, r)) == Prepend(a + b, r)
    ensures Prepend([], r) == r
  {
    if r.Some? {
      assert a + (b + r.value) == (a + b) + r.value;
      assert [] + r.value == r.value;
    }
  }

  lemma {:induction false} PercentDecodeBytes(bs: seq<byte>, rest: string)
    ensures PercentDecode(PercentBytes(bs) + rest) == Prepend(bs, PercentDecode(rest))
  {
    PrependTwice([], [], PercentDecode(rest));
    if bs == [] {
      assert PercentBytes(bs) + rest == rest;
    } else {
      var b := bs[0];
      var tail := PercentBytes(bs[1..]) + rest;
      assert PercentBytes(bs) == PercentByte(b) + PercentBytes(bs[1..]);
      assert PercentBytes(bs) + rest == PercentByte(b) + tail;
      PercentDecodeByte(b, tail);
      PercentDecodeBytes(bs[1..], rest);
      PrependTwice([b], bs[1..], PercentDecode(rest));
      assert [b] + bs[1..] == bs;
    }
  }

  lemma PercentDecodeChar(c: char, rest: string)
    ensures PercentDecode(EncodeChar(c) + rest) == Prepend(Utf8(c), PercentDecode(rest))
  {
    if IsUnreserved(c) {
      assert ([c] + rest)[1..] == rest;
    } else {
      PercentDecodeBytes(Utf8(c), rest);
    }
  }

  /** The escapes of an encoded component spell the UTF-8 bytes of the original. */
  lemma {:induction false} PercentDecodeOfEncode(s: string)
    ensures PercentDecode(EncodeUriComponent(s)) == Some(Utf8Of(s))
  {
    if s != [] {
      PercentDecodeChar(s[0], EncodeUriComponent(s[1..]));
      PercentDecodeOfEncode(s[1..]);
    }
  }

  /** Decoding undoes encoding, for every string. */
  lemma DecodeOfEncode(s: string)
    ensures DecodeUriComponent(EncodeUriComponent(s)) == Some(s)
  {
    PercentDecodeOfEncode(s);
    Utf8DecodeOfUtf8(s);
  }

  // ---------------------------------------------------------------------------
  // The search query

  const SearchEndpoint: string := "https://itunes.apple.com/search"

  /** The search term: artist, a space and title, trimmed. */
  function SearchTerm(title: string, artist: string): string {
    Trim(artist + " " + title)
  }

  /** The search URL for a title and an artist: music media, one result, and
      the encoded search term. */
  function ToQuery(title: string, artist: string): string {
    SearchEndpoint + "?" + "media=music" + "&" + "limit=1" + "&" + "term=" + EncodeUriComponent(SearchTerm(title, artist))
  }

  /** The part of `s` after the first `c` (empty when there is none). */
  function AfterFirst(s: string, c: char): string {
    if s == [] then []
    else if s[0] == c then s[1..]
    else AfterFirst(s[1..], c)
  }

  /** The part of `s` before the first `c` (all of `s` when there is none). */
  function BeforeFirst(s: string, c: char): string {
    if s == [] || s[0] == c then []
    else [s[0]] + BeforeFirst(s[1..], c)
  }

  /** `s.split(c)` */
  function SplitOn(s: string, c: char): (parts: seq<string>)
    ensures |parts| >= 1
  {
    if s == [] then [[]]
    else
      var rest := SplitOn(s[1..], c);
      if s[0] == c then [[]] + rest else [[s[0]] + rest[0]] + rest[1..]
  }

  function Param(pair: string): (string, string) {
    (BeforeFirst(pair, '='), AfterFirst(pair, '='))
  }

  /** The name/value pairs of a URL's query string, in order. */
  function QueryParams(url: string): seq<(string, string)> {
    var pairs := SplitOn(AfterFirst(url, '?'), '&');
    seq(|pairs|, i requires 0 <= i < |pairs| => Param(pairs[i]))
  }

  lemma {:induction false} AfterFirstConcat(a: string, c: char, b: string)
    requires c !in a
    ensures AfterFirst(a + [c] + b, c) == b
  {
    if a != [] {
      assert (a + [c] + b)[1..] == a[1..] + [c] + b;
      AfterFirstConcat(a[1..], c, b);
    }
  }

  lemma {:induction false} BeforeFirstConcat(a: string, c: char, b: string)
    requires c !in a
    ensures BeforeFirst(a + [c] + b, c) == a
  {
    if a != [] {
      assert (a + [c] + b)[1..] == a[1..] + [c] + b;
      BeforeFirstConcat(a[1..], c, b);
      assert a == [a[0]] + a[1..];
    }
  }

  lemma {:induction false} SplitOnNone(s: string, c: char)
    requires c !in s
    ensures SplitOn(s, c) == [s]
  {
    if s != [] {
      SplitOnNone(s[1..], c);
      assert s == [s[0]] + s[1..];
    }
  }

  lemma {:induction false} SplitOnConcat(a: string, c: char, b: string)
    requires c !in a
    ensures SplitOn(a + [c] + b, c) == [a] + SplitOn(b, c)
  {
    if a == [] {
      assert (a + [c] + b)[1..] == b;
    } else {
      assert (a + [c] + b)[1..] == a[1..] + [c] + b;
      SplitOnConcat(a[1..], c, b);
      assert a == [a[0]] + a[1..];
    }
  }

  lemma SafeHasNoDelimiters(e: string)
    requires IsUriSafe(e)
    ensures '&' !in e && '=' !in e
  {
    forall i | 0 <= i < |e|
      ensures e[i] != '&' && e[i] != '='
    {
    }
  }

  lemma QueryPairs(term: string)
    requires '&' !in term
    ensures SplitOn("media=music" + "&" + "limit=1" + "&" + "term=" + term, '&') == ["media=music", "limit=1", "term=" + term]
  {
    var last := "term=" + term;
    var tail := "limit=1" + "&" + last;
    SplitOnNone(last, '&');
    SplitOnConcat("limit=1", '&', last);
    assert "media=music" + "&" + "limit=1" + "&" + "term=" + term == "media=music" + "&" + tail;
    SplitOnConcat("media=music", '&', tail);
  }

  lemma ParamOf(name: string, value: string)
    requires '=' !in name
    ensures Param(name + "=" + value) == (name, value)
  {
    BeforeFirstConcat(name, '=', value);
    AfterFirstConcat(name, '=', value);
  }

  lemma EndpointQuery(query: string)
    ensures AfterFirst(SearchEndpoint + "?" + query, '?') == query
  {
    assert '?' !in SearchEndpoint;
    AfterFirstConcat(SearchEndpoint, '?', query);
  }

  lemma FixedParams()
    ensures Param("media=music") == ("media", "music")
    ensures Param("limit=1") == ("limit", "1")
  {
    assert "media=music" == "media" + "=" + "music";
    assert "limit=1" == "limit" + "=" + "1";
    ParamOf("media", "music");
    ParamOf("limit", "1");
  }

  lemma ParamsOfPairs(url: string, term: string)
    requires SplitOn(AfterFirst(url, '?'), '&') == ["media=music", "limit=1", "term=" + term]
    ensures QueryParams(url) == [("media", "music"), ("limit", "1"), ("term", term)]
  {
    var pairs := SplitOn(AfterFirst(url, '?'), '&');
    var params := QueryParams(url);
    assert |params| == 3 && params[0] == Param(pairs[0]) && params[1] == Param(pairs[1])
      && params[2] == Param(pairs[2]);
    FixedParams();
    TermParam(term);
  }

  lemma TermParam(term: string)
    ensures Param("term=" + term) == ("term", term)
  {
    assert "term=" + term == "term" + "=" + term;
    ParamOf("term", term);
  }

  lemma QueryParamsOfTerm(term: string)
    requires '&' !in term
    ensures QueryParams(SearchEndpoint + "?" + "media=music" + "&" + "limit=1" + "&" + "term=" + term)
      == [("media", "music"), ("limit", "1"), ("term", term)]
  {
    var query := "media=music" + "&" + "limit=1" + "&" + "term=" + term;
    var url := SearchEndpoint + "?" + "media=music" + "&" + "limit=1" + "&" + "term=" + term;
    assert url == SearchEndpoint + "?" + query;
    EndpointQuery(query);
    QueryPairs(term);
    ParamsOfPairs(url, term);
  }

  /** The query carries exactly three parameters, in this order: media=music,
      limit=1 and the encoded term; the term can neither add a parameter nor
      change the other two, and it decodes back to the trimmed
      "artist title". */
  lemma ToQueryParams(title: string, artist: string)
    ensures var term := EncodeUriComponent(SearchTerm(title, artist));
      && QueryParams(ToQuery(title, artist)) == [("media", "music"), ("limit", "1"), ("term", term)]
      && DecodeUriComponent(term) == Some(SearchTerm(title, artist))
  {
    var term := EncodeUriComponent(SearchTerm(title, artist));
    SafeHasNoDelimiters(term);
    QueryParamsOfTerm(term);
    DecodeOfEncode(SearchTerm(title, artist));
  }

  // ---------------------------------------------------------------------------
  // Artwork

  /** The end of the run of digits that starts at `i`. */
  function DigitRun(s: string, i: nat): (j: nat)
    requires i <= |s|
    ensures i <= j <= |s| && AllDigits(s[i..j]) && (j == |s| || !IsDigit(s[j]))
    decreases |s| - i
  {
    if i < |s| && IsDigit(s[i]) then
      var j := DigitRun(s, i + 1);
      assert s[i..j] == [s[i]] + s[i + 1..j];
      j
    else i
  }

  /** A maximal run of digits is determined by where it starts. */
  lemma DigitRunUnique(s: string, i: nat, j: nat)
    requires i <= j <= |s| && AllDigits(s[i..j]) && (j == |s| || !IsDigit(s[j]))
    ensures DigitRun(s, i) == j
  {
  }

  /** Where the artwork size segment (a slash, digits, an `x`, the same
      digits again, then `bb.`) ends when it starts at position `k`.
      Backtracking cannot shorten `\d+`, since an `x` must follow it. */
  function SegmentEnd(s: string, k: nat): (r: Option<nat>)
    requires k <= |s|
    ensures r.Some? ==> k < r.value <= |s|
  {
    if k < |s| && s[k] == '/' then
      var j := DigitRun(s, k + 1);
      var d := s[k + 1..j];
      if |d| >= 1 && j + |d| + 4 <= |s| && s[j] == 'x'
        && s[j + 1..j + 1 + |d|] == d && s[j + 1 + |d|..j + 4 + |d|] == "bb."
      then Some(j + 4 + |d|)
      else None
    else None
  }

  /** `s` holds `/`, the digits `d`, `x`, `d` again and `bb.` at position `k`. */
  predicate SegmentWith(s: string, k: nat, d: string) {
    |d| >= 1 && AllDigits(d) && k + 2 * |d| + 5 <= |s|
    && s[k..k + 2 * |d| + 5] == "/" + d + "x" + d + "bb."
  }

  lemma SliceOfSlice(s: string, a: nat, b: nat, c: nat, d: nat)
    requires a <= b <= |s| && c <= d <= b - a
    ensures s[a..b][c..d] == s[a + c..a + d]
  {
    forall i | 0 <= i < d - c
      ensures s[a..b][c..d][i] == s[a + c..a + d][i]
    {
      assert s[a..b][c..d][i] == s[a..b][c + i] == s[a + c + i];
    }
  }

  /** The pieces of the text `/` d1 `x` d2 `bb.`. */
  lemma SegmentText(d1: string, d2: string)
    ensures var lit := "/" + d1 + "x" + d2 + "bb.";
      && |lit| == |d1| + |d2| + 5 && lit[0] == '/' && lit[1..1 + |d1|] == d1
      && lit[1 + |d1|] == 'x' && lit[2 + |d1|..2 + |d1| + |d2|] == d2
      && lit[2 + |d1| + |d2|..] == "bb."
  {
  }

  /** The characters of a segment `/` d1 `x` d2 `bb.` at position `k`, piece by piece. */
  lemma SegmentParts(s: string, k: nat, d1: string, d2: string)
    requires k + |d1| + |d2| + 5 <= |s|
    requires s[k..k + |d1| + |d2| + 5] == "/" + d1 + "x" + d2 + "bb."
    ensures s[k] == '/' && s[k + 1..k + 1 + |d1|] == d1 && s[k + 1 + |d1|] == 'x'
    ensures s[k + 2 + |d1|..k + 2 + |d1| + |d2|] == d2
    ensures s[k + 2 + |d1| + |d2|..k + |d1| + |d2| + 5] == "bb."
  {
    var e := k + |d1| + |d2| + 5;
    var seg := s[k..e];
    SegmentText(d1, d2);
    SliceOfSlice(s, k, e, 1, 1 + |d1|);
    SliceOfSlice(s, k, e, 2 + |d1|, 2 + |d1| + |d2|);
    SliceOfSlice(s, k, e, 2 + |d1| + |d2|, |d1| + |d2| + 5);
    assert s[k] == seg[0];
    assert s[k + 1 + |d1|] == seg[1 + |d1|];
  }

  /** The converse: the pieces in place make the segment. */
  lemma SegmentFromParts(s: string, k: nat, d: string)
    requires k + 2 * |d| + 5 <= |s|
    requires s[k] == '/' && s[k + 1..k + 1 + |d|] == d && s[k + 1 + |d|] == 'x'
    requires s[k + 2 + |d|..k + 2 + 2 * |d|] == d && s[k + 2 + 2 * |d|..k + 2 * |d| + 5] == "bb."
    ensures s[k..k + 2 * |d| + 5] == "/" + d + "x" + d + "bb."
  {
    var e := k + 2 * |d| + 5;
    var lit := "/" + d + "x" + d + "bb.";
    SegmentText(d, d);
    forall i | 0 <= i < 2 * |d| + 5
      ensures s[k..e][i] == lit[i]
    {
      if i == 0 {
      } else if i <= |d| {
        assert s[k + 1..k + 1 + |d|][i - 1] == d[i - 1] == lit[1..1 + |d|][i - 1];
      } else if i == |d| + 1 {
      } else if i <= 2 * |d| + 1 {
        assert s[k + 2 + |d|..k + 2 + 2 * |d|][i - 2 - |d|] == d[i - 2 - |d|]
            == lit[2 + |d|..2 + 2 * |d|][i - 2 - |d|];
      } else {
        assert s[k + 2 + 2 * |d|..e][i - 2 - 2 * |d|] == lit[2 + 2 * |d|..][i - 2 - 2 * |d|];
      }
    }
  }

  /** A match found by `SegmentEnd` is a square segment. */
  lemma SegmentEndSound(s: string, k: nat)
    requires k <= |s| && SegmentEnd(s, k).Some?
    ensures exists d :: SegmentWith(s, k, d) && SegmentEnd(s, k).value == k + 2 * |d| + 5
  {
    var j := DigitRun(s, k + 1);
    var d := s[k + 1..j];
    SegmentFromParts(s, k, d);
    assert SegmentWith(s, k, d);
  }

  /** Every square segment is matched by `SegmentEnd`. */
  lemma SegmentEndComplete(s: string, k: nat, d: string)
    requires SegmentWith(s, k, d)
    ensures SegmentEnd(s, k) == Some(k + 2 * |d| + 5)
  {
    SegmentParts(s, k, d, d);
    DigitRunUnique(s, k + 1, k + 1 + |d|);
  }

  /** The leftmost match of the pattern, from position `k` on. */
  function FirstSegment(s: string, k: nat): (r: Option<(nat, nat)>)
    requires k <= |s|
    ensures r.Some? ==> k <= r.value.0 <= |s| && SegmentEnd(s, r.value.0) == Some(r.value.1)
    ensures r.Some? ==> forall m :: k <= m < r.value.0 ==> SegmentEnd(s, m).None?
    ensures r.None? ==> forall m :: k <= m <= |s| ==> SegmentEnd(s, m).None?
    decreases |s| - k
  {
    match SegmentEnd(s, k)
    case Some(e) => Some((k, e))
    case None => if k == |s| then None else FirstSegment(s, k + 1)
  }

  const Square600: string := "/600x600bb."

  /** The leftmost square size segment of an artwork URL replaced by the
      600 by 600 one; a URL without one is left as it is. */
  function Upsize(s: string): string {
    match FirstSegment(s, 0)
    case None => s
    case Some((b, e)) => s[..b] + Square600 + s[e..]
  }

  /** `upsizeArtwork`: falsy URLs become null, others are rewritten and stay non-empty. */
  function UpsizeArtwork(v: Val): (r: Val)
    ensures !Truthy(v) ==> r == Null
    ensures Truthy(v) ==> Truthy(r)
  {
    if !Truthy(v) then Null
    else
      var u := Upsize(v.s);
      assert u != [] by {
        if FirstSegment(v.s, 0).Some? {
          var b := FirstSegment(v.s, 0).value.0;
          assert u[b] == Square600[0];
        }
      }
      Str(u)
  }

  /** The leftmost square segment, whatever its dimensions, becomes `/600x600bb.`. */
  lemma UpsizeRewritesFirst(s: string, b: nat, d: string)
    requires SegmentWith(s, b, d)
    requires forall m, d' :: 0 <= m < b ==> !SegmentWith(s, m, d')
    ensures Upsize(s) == s[..b] + Square600 + s[b + 2 * |d| + 5..]
  {
    SegmentEndComplete(s, b, d);
    forall m | 0 <= m < b
      ensures SegmentEnd(s, m).None?
    {
      if SegmentEnd(s, m).Some? {
        SegmentEndSound(s, m);
      }
    }
    if FirstSegment(s, 0).Some? {
      var b' := FirstSegment(s, 0).value.0;
      assert b' == b;
    }
  }

  /** A URL without a square segment is returned unchanged. */
  lemma UpsizeNoSegment(s: string)
    requires forall k, d :: !SegmentWith(s, k, d)
    ensures Upsize(s) == s
  {
    if FirstSegment(s, 0).Some? {
      SegmentEndSound(s, FirstSegment(s, 0).value.0);
    }
  }

  /** Different dimensions on the two sides of the `x` do not match the
      back-reference. */
  lemma UnequalDimensionsNotMatched(s: string, k: nat, d1: string, d2: string)
    requires |d1| >= 1 && |d2| >= 1 && AllDigits(d1) && AllDigits(d2) && d1 != d2
    requires k + |d1| + |d2| + 5 <= |s|
    requires s[k..k + |d1| + |d2| + 5] == "/" + d1 + "x" + d2 + "bb."
    ensures SegmentEnd(s, k).None?
  {
    SegmentParts(s, k, d1, d2);
    var j := k + 1 + |d1|;
    DigitRunUnique(s, k + 1, j);
    var b := j + 1 + |d2|;
    assert s[b] == s[b..b + 3][0] == 'b';
    if j + |d1| + 4 <= |s| {
      if |d2| < |d1| {
        assert s[j + 1..j + 1 + |d1|][|d2|] == s[b];
        assert IsDigit(d1[|d2|]);
      } else if |d1| < |d2| {
        assert s[j + 1 + |d1|] == s[j + 1..j + 1 + |d2|][|d1|] == d2[|d1|];
        assert IsDigit(d2[|d1|]);
        assert s[j + 1 + |d1|..j + 4 + |d1|][0] == s[j + 1 + |d1|];
      }
    }
  }

  /** A square segment never extends across a `/` after its first character. */
  lemma SegmentHasOneSlash(s: string, k: nat, p: nat)
    requires k <= |s| && SegmentEnd(s, k).Some? && k < p < SegmentEnd(s, k).value
    ensures s[p] != '/'
  {
    SegmentEndSound(s, k);
    var d :| SegmentWith(s, k, d) && SegmentEnd(s, k).value == k + 2 * |d| + 5;
    var seg := s[k..k + 2 * |d| + 5];
    assert s[p] == seg[p - k];
    if p - k <= |d| {
      assert seg[p - k] == d[p - k - 1];
    } else if p - k == |d| + 1 {
    } else if p - k <= 2 * |d| + 1 {
      assert seg[p - k] == d[p - k - |d| - 2];
    }
  }

  /** A match depends only on the characters it covers. */
  lemma SegmentEndLocal(s: string, t: string, k: nat, e: nat)
    requires k <= |t| && SegmentEnd(t, k) == Some(e)
    requires e <= |s| && s[k..e] == t[k..e]
    ensures SegmentEnd(s, k) == Some(e)
  {
    SegmentEndSound(t, k);
    var d :| SegmentWith(t, k, d) && e == k + 2 * |d| + 5;
    assert s[k..e] == t[k..e];
    SegmentEndComplete(s, k, d);
  }

  /** The leftmost match is at `b` when there is one at `b` and none before it. */
  lemma FirstSegmentAt(s: string, k: nat, b: nat, e: nat)
    requires k <= b <= |s| && SegmentEnd(s, b) == Some(e)
    requires forall m :: k <= m < b ==> SegmentEnd(s, m).None?
    ensures FirstSegment(s, k) == Some((b, e))
  {
    var r := FirstSegment(s, k);
  }

  /** Text that agrees with `s` before a `/` at `b` has no match before `b`
      when `s` has none. */
  lemma NoEarlierSegment(s: string, t: string, b: nat)
    requires b <= |s| && b < |t| && t[..b] == s[..b] && t[b] == '/'
    requires forall m :: 0 <= m < b ==> SegmentEnd(s, m).None?
    ensures forall m :: 0 <= m < b ==> SegmentEnd(t, m).None?
  {
    forall m | 0 <= m < b
      ensures SegmentEnd(t, m).None?
    {
      if SegmentEnd(t, m).Some? {
        var e' := SegmentEnd(t, m).value;
        if e' <= b {
          assert t[m..e'] == t[..b][m..e'] == s[..b][m..e'] == s[m..e'];
          SegmentEndLocal(s, t, m, e');
        } else {
          SegmentHasOneSlash(t, m, b);
        }
      }
    }
  }

  /** The text a rewrite produces keeps what came before and after the
      replaced segment. */
  lemma SpliceParts(s: string, b: nat, e: nat)
    requires b <= e <= |s|
    ensures var t := s[..b] + Square600 + s[e..];
      |t| == b + 11 + (|s| - e) && t[..b] == s[..b] && t[b..b + 11] == Square600 && t[b + 11..] == s[e..]
  {
  }

  /** The 600 by 600 segment is a match of the pattern. */
  lemma Square600Matches(t: string, b: nat)
    requires b + 11 <= |t| && t[b..b + 11] == Square600
    ensures t[b] == '/' && SegmentEnd(t, b) == Some(b + 11)
  {
    assert Square600 == "/" + "600" + "x" + "600" + "bb.";
    assert t[b] == t[b..b + 11][0];
    assert SegmentWith(t, b, "600");
    SegmentEndComplete(t, b, "600");
  }

  /** Upsizing twice is upsizing once: the rewritten segment is again the leftmost one. */
  lemma UpsizeIdempotent(s: string)
    ensures Upsize(Upsize(s)) == Upsize(s)
  {
    match FirstSegment(s, 0)
    case None =>
    case Some((b, e)) =>
      var t := s[..b] + Square600 + s[e..];
      assert Upsize(s) == t;
      SpliceParts(s, b, e);
      Square600Matches(t, b);
      NoEarlierSegment(s, t, b);
      FirstSegmentAt(t, 0, b, b + 11);
      assert Upsize(t) == t[..b] + Square600 + t[b + 11..];
  }

  // ---------------------------------------------------------------------------
  // Enrichment

  /** The fields of the first iTunes search result that enrichment reads. */
  datatype SearchResult = SearchResult(
    artworkUrl100: Val, artworkUrl60: Val, previewUrl: Val,
    primaryGenreName: Val, trackViewUrl: Val, collectionViewUrl: Val)

  /** Fields filled in by enrichment; `Null` stands for an absent key. */
  datatype Meta = Meta(coverArtUrl: Val, soundClipUrl: Val, genre: Val, sourceUrl: Val)

  const NoMeta: Meta := Meta(Null, Null, Null, Null)

  /** The outcome of `enrichTrack`: the URL it requested, if any, and what it
      found. */
  datatype Enrichment = Enrichment(request: Option<string>, meta: Meta)

  /** `enrichTrack` for a title, an artist and the cover and clip URLs, where
      `first` is the first result the search returned, or `None` when the
      fetch failed, timed out, was not JSON or found nothing. */
  function EnrichTrack(title: Val, artist: Val, coverArtUrl: Val, soundClipUrl: Val,
                       first: Option<SearchResult>): (e: Enrichment)
    ensures e.request.Some? <==>
      (!Truthy(coverArtUrl) || !Truthy(soundClipUrl)) && Truthy(title) && Truthy(artist)
    ensures e.request.Some? ==> e.request.value == ToQuery(title.s, artist.s)
    ensures e.request.None? || first.None? ==> e.meta == NoMeta
    ensures Truthy(coverArtUrl) ==> e.meta.coverArtUrl == Null
    ensures Truthy(soundClipUrl) ==> e.meta.soundClipUrl == Null
  {
    var needCover := !Truthy(coverArtUrl);
    var needClip := !Truthy(soundClipUrl);
    if !needCover && !needClip then Enrichment(None, NoMeta)
    else if !Truthy(title) || !Truthy(artist) then Enrichment(None, NoMeta)
    else
      var url := ToQuery(title.s, artist.s);
      match first
      case None => Enrichment(Some(url), NoMeta)
      case Some(r) =>
        var art600 := UpsizeArtwork(OrElse(r.artworkUrl100, r.artworkUrl60));
        Enrichment(Some(url), Meta(
          if needCover then OrElse(art600, OrElse(r.artworkUrl100, OrElse(r.artworkUrl60, Null))) else Null,
          if needClip then OrElse(r.previewUrl, Null) else Null,
          OrElse(r.primaryGenreName, Null),
          OrElse(r.trackViewUrl, OrElse(r.collectionViewUrl, Null))))
  }

  /** What a search result fills in: the cover is the 600px rendition of the
      100px artwork, else of the 60px artwork; the clip is the preview; the
      source is the track page, else the collection page; empty strings count
      as missing everywhere. */
  lemma EnrichFromResult(title: string, artist: string, coverArtUrl: Val, soundClipUrl: Val, r: SearchResult)
    requires title != "" && artist != ""
    requires !Truthy(coverArtUrl) || !Truthy(soundClipUrl)
    ensures var m := EnrichTrack(Str(title), Str(artist), coverArtUrl, soundClipUrl, Some(r)).meta;
      && m.coverArtUrl == (if Truthy(coverArtUrl) then Null
                           else if Truthy(r.artworkUrl100) then Str(Upsize(r.artworkUrl100.s))
                           else if Truthy(r.artworkUrl60) then Str(Upsize(r.artworkUrl60.s))
                           else Null)
      && m.soundClipUrl == (if Truthy(soundClipUrl) || !Truthy(r.previewUrl) then Null else r.previewUrl)
      && m.genre == (if Truthy(r.primaryGenreName) then r.primaryGenreName else Null)
      && m.sourceUrl == (if Truthy(r.trackViewUrl) then r.trackViewUrl
                         else if Truthy(r.collectionViewUrl) then r.collectionViewUrl
                         else Null)
  {
    var art := OrElse(r.artworkUrl100, r.artworkUrl60);
    assert Truthy(art) ==> Truthy(UpsizeArtwork(art));
  }
}
