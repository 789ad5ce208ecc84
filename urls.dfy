/** The URL side the scripts share: what `new URL(s)` yields (the parser is
    the browser's and enters as a function), `isValidUrl`, the query text of
    a URL string, and `buildRedirectUrl`, which both dispatchers write the
    same way. */
module Urls {
  import opened Text
  import opened QueryParams

  /** The parts of a parsed URL the scripts read: `protocol` (with its colon),
      `hostname`, `pathname`, `searchParams`, and, to write the URL back out,
      `head` (its serialisation up to the query: scheme, authority and path)
      and `hash` ("" or starting with `#`). */
  datatype Url = Url(protocol: string, hostname: string, pathname: string, head: string, search: Query, hash: string)

  /** The browser's URL parser; `None` stands for the `TypeError` that
      `new URL(s)` throws. */
  type Parser = string -> Option<Url>

  predicate IsHttpScheme(u: Url)
  {
    u.protocol == "http:" || u.protocol == "https:"
  }

  /** `isValidUrl(url)`: false for the empty string (JavaScript's other falsy
      and non-string arguments do not arise in the model), false when parsing
      throws, and otherwise true exactly for `http:` and `https:`. */
  predicate IsValidUrl(s: string, parse: Parser)
  {
    s != "" && parse(s).Some? && IsHttpScheme(parse(s).value)
  }

  /** A valid URL is non-empty, parses, and uses one of the two web schemes;
      anything else, a `file:` or `javascript:` URL included, is refused. */
  lemma IsValidUrlMeaning(s: string, parse: Parser)
    ensures IsValidUrl(s, parse) ==> s != "" && parse(s).Some? && IsHttpScheme(parse(s).value)
    ensures parse(s).Some? && parse(s).value.protocol !in {"http:", "https:"} ==> !IsValidUrl(s, parse)
    ensures parse(s).None? || s == "" ==> !IsValidUrl(s, parse)
  {
  }

  // ---------------------------------------------------------------------------
  // the query text of a URL string
  // ---------------------------------------------------------------------------

  /** The part before the first `#`: a URL's fragment never holds its query. */
  function BeforeFragment(s: string): (h: string)
    ensures '#' !in h && StartsWith(s, h)
  {
    match Find(s, '#')
    case None => s
    case Some(i) => s[..i]
  }

  /** The query text of a URL string: what follows the first `?` up to the
      fragment, without the `?`; "" when there is none. */
  function QueryText(s: string): string
  {
    var h := BeforeFragment(s);
    match Find(h, '?')
    case None => ""
    case Some(i) => h[i + 1..]
  }

  // ---------------------------------------------------------------------------
  // buildRedirectUrl
  // ---------------------------------------------------------------------------

  /** The two parameters the dispatcher adds: the presence-only marker and
      the full address of the page the visitor was on. */
  function Markers(href: string): Query
  {
    [("was-redirected", ""), ("originating-url", href)]
  }

  /** `redirectUrl.indexOf("?") === -1 ? "?" : "&"`. */
  function Separator(dest: string): char
  {
    if '?' in dest then '&' else '?'
  }

  /** The parameters `buildRedirectUrl` sends on: a copy of the current ones
      made by reading back their text form, then `was-redirected` with an
      empty value and `originating-url` holding the current address. */
  function RedirectParams(current: Query, href: string, codec: Codec): Query
  {
    var copy := Parse(Serialize(current, codec), codec);
    Append(Append(copy, "was-redirected", ""), "originating-url", href)
  }

  /** The copy loses nothing: the parameters sent on are the current ones,
      in order, followed by the two markers. */
  lemma RedirectParamsMeaning(current: Query, href: string, codec: Codec)
    requires Faithful(codec)
    ensures RedirectParams(current, href, codec) == current + Markers(href)
  {
    ParseSerialize(current, codec);
  }

  /** `buildRedirectUrl(dest)`: the destination kept verbatim, then `?` when
      it has no `?` yet and `&` otherwise, then the serialised parameters. */
  function BuildRedirectUrl(dest: string, current: Query, href: string, codec: Codec): (r: string)
    ensures StartsWith(r, dest) && |r| > |dest|
    ensures r[|dest|] == '?' <==> '?' !in dest
    ensures r[|dest|] == '&' <==> '?' in dest
  {
    var r := dest + [Separator(dest)] + Serialize(RedirectParams(current, href, codec), codec);
    assert r[..|dest|] == dest;
    r
  }

  lemma SerializeAvoidsHash(q: Query, c: Codec)
    requires Faithful(c)
    ensures '#' !in Serialize(q, c)
  {
    var pieces := EncodePairs(q, c);
    forall k | 0 <= k < |pieces| ensures '#' !in pieces[k] {
      assert pieces[k] == c.encode(q[k].0) + "=" + c.encode(q[k].1);
      assert '#' !in c.encode(q[k].0) && '#' !in c.encode(q[k].1);
    }
    JoinAvoids(pieces, "&", '#');
  }

  /** Without a `#`, the query text is whatever follows the first `?`. */
  lemma QueryTextWithoutFragment(s: string)
    requires '#' !in s
    ensures QueryText(s) == match Find(s, '?') case None => "" case Some(i) => s[i + 1..]
  {
    assert BeforeFragment(s) == s;
  }

  /** The query text of a fragment-free destination once a separator and a
      fragment-free tail are added to it. */
  lemma QueryTextExtended(dest: string, text: string)
    requires '#' !in dest && '#' !in text
    ensures QueryText(dest + [Separator(dest)] + text) ==
      if '?' in dest then QueryText(dest) + "&" + text else text
  {
    var tail := [Separator(dest)] + text;
    var r := dest + tail;
    assert r == dest + [Separator(dest)] + text;
    assert '#' !in tail;
    QueryTextWithoutFragment(r);
    QueryTextWithoutFragment(dest);
    FindAppend(dest, tail, '?');
    if '?' in dest {
      var i := Find(dest, '?').value;
      assert r[i + 1..] == dest[i + 1..] + "&" + text;
    } else {
      assert Find(tail, '?') == Some(0);
      assert r[|dest| + 1..] == text;
    }
  }

  lemma ParseEmpty(c: Codec)
    ensures Parse("", c) == []
  {
    assert Split("", '&') == [""];
    assert DecodePieces([""], c) == DecodePieces([], c);
  }

  /** The round trip of the redirect: for a destination without a fragment,
      the page it leads to reads, after the destination's own parameters, all
      of the current parameters unchanged and in order, then `was-redirected`
      with an empty value and `originating-url` holding the full current
      address. */
  lemma RedirectUrlRoundTrip(dest: string, current: Query, href: string, codec: Codec)
    requires Faithful(codec)
    requires '#' !in dest
    ensures Parse(QueryText(BuildRedirectUrl(dest, current, href, codec)), codec) ==
      Parse(QueryText(dest), codec) + current + Markers(href)
  {
    var params := RedirectParams(current, href, codec);
    RedirectParamsMeaning(current, href, codec);
    var text := Serialize(params, codec);
    assert BuildRedirectUrl(dest, current, href, codec) == dest + [Separator(dest)] + text;
    SerializeAvoidsHash(params, codec);
    ParseSerialize(params, codec);
    ParseAfterSeparator(dest, text, codec);
  }

  /** Whichever separator is chosen, the extended address reads back as the
      destination's parameters followed by those of the tail. */
  lemma ParseAfterSeparator(dest: string, text: string, codec: Codec)
    requires '#' !in dest && '#' !in text
    ensures Parse(QueryText(dest + [Separator(dest)] + text), codec) ==
      Parse(QueryText(dest), codec) + Parse(text, codec)
  {
    QueryTextExtended(dest, text);
    if '?' in dest {
      ParseJoined(QueryText(dest), text, codec);
    } else {
      QueryTextWithoutFragment(dest);
      ParseEmpty(codec);
    }
  }

  /** A destination that carries a fragment receives the appended parameters
      inside that fragment: its query text, and so what the page after the
      redirect reads, is the destination's own. */
  lemma FragmentSwallowsMarkers(dest: string, current: Query, href: string, codec: Codec)
    requires '#' in dest
    ensures QueryText(BuildRedirectUrl(dest, current, href, codec)) == QueryText(dest)
  {
    var params := RedirectParams(current, href, codec);
    var tail := [Separator(dest)] + Serialize(params, codec);
    assert BuildRedirectUrl(dest, current, href, codec) == dest + tail;
    FindAppend(dest, tail, '#');
    var i := Find(dest, '#').value;
    assert BeforeFragment(dest + tail) == (dest + tail)[..i] == dest[..i];
  }

  // ---------------------------------------------------------------------------
  // writing a URL back out
  // ---------------------------------------------------------------------------

  /** What the URL parser guarantees of its output: the head holds neither
      `?` nor `#`, and the fragment, if any, starts with `#`. */
  predicate WellFormedUrl(u: Url)
  {
    '?' !in u.head && '#' !in u.head && (u.hash == "" || u.hash[0] == '#')
  }

  /** `url.toString()` once `url.searchParams` has been changed: the query is
      the serialised pairs, and is left out when there are none. */
  function UrlString(u: Url, codec: Codec): string
  {
    u.head + (if u.search == [] then "" else "?" + Serialize(u.search, codec)) + u.hash
  }

  /** The query text of the written URL reads back as the URL's pairs. */
  lemma UrlStringQuery(u: Url, codec: Codec)
    requires WellFormedUrl(u) && Faithful(codec)
    ensures Parse(QueryText(UrlString(u, codec)), codec) == u.search
  {
    var s := UrlString(u, codec);
    if u.search == [] {
      assert s == u.head + u.hash;
      FindAppend(u.head, u.hash, '#');
      if u.hash == "" {
        assert s == u.head;
      } else {
        assert Find(u.hash, '#') == Some(0);
        assert BeforeFragment(s) == s[..|u.head|] == u.head;
      }
      ParseEmpty(codec);
    } else {
      var text := Serialize(u.search, codec);
      SerializeAvoidsHash(u.search, codec);
      var body := u.head + "?" + text;
      assert s == body + u.hash;
      assert '#' !in body;
      FindAppend(body, u.hash, '#');
      if u.hash == "" {
        assert s == body;
      } else {
        assert Find(u.hash, '#') == Some(0);
        assert BeforeFragment(s) == s[..|body|] == body;
      }
      FindAppend(u.head, "?" + text, '?');
      assert body == u.head + ("?" + text);
      assert body[|u.head| + 1..] == text;
      ParseSerialize(u.search, codec);
    }
  }

  // ---------------------------------------------------------------------------
  // url.match(/https?:\/\/([^\/]+)/)
  // ---------------------------------------------------------------------------

  /** The longest prefix without a `/`: what `[^/]+` takes. */
  function NonSlashRun(s: string): (r: string)
    ensures StartsWith(s, r) && '/' !in r
    ensures |r| == |s| || s[|r|] == '/'
  {
    if |s| == 0 || s[0] == '/' then ""
    else
      var rest := NonSlashRun(s[1..]);
      assert s[..1 + |rest|] == [s[0]] + s[1..][..|rest|];
      [s[0]] + rest
  }

  /** Whether the pattern can start matching at position `i`: `https://` or
      `http://` followed by at least one character other than `/`. */
  predicate HttpAt(s: string, i: nat)
  {
    (OccursAt(s, "https://", i) && i + 8 < |s| && s[i + 8] != '/') ||
    (OccursAt(s, "http://", i) && i + 7 < |s| && s[i + 7] != '/')
  }

  /** The leftmost position from `from` on where the pattern matches. */
  function HttpMatchIndex(s: string, from: nat): (r: Option<nat>)
    requires from <= |s|
    ensures r.Some? ==> from <= r.value < |s| && HttpAt(s, r.value)
    ensures r.Some? ==> forall j :: from <= j < r.value ==> !HttpAt(s, j)
    ensures r.None? ==> forall j :: from <= j < |s| ==> !HttpAt(s, j)
    decreases |s| - from
  {
    if from == |s| then None
    else if HttpAt(s, from) then Some(from)
    else HttpMatchIndex(s, from + 1)
  }

  /** The first capture group of `s.match(/https?:\/\/([^\/]+)/)`: the
      host part after the leftmost `http://` or `https://`, up to the next
      `/`; `None` when there is no match. */
  function HttpHostMatch(s: string): (r: Option<string>)
    ensures r.None? <==> forall j :: 0 <= j < |s| ==> !HttpAt(s, j)
    ensures r.Some? ==> r.value != "" && '/' !in r.value
  {
    match HttpMatchIndex(s, 0)
    case None => None
    case Some(i) =>
      var start := if OccursAt(s, "https://", i) && i + 8 < |s| && s[i + 8] != '/' then i + 8 else i + 7;
      Some(NonSlashRun(s[start..]))
  }

  /** The host that follows the scheme is captured whole: a URL-like string
      that starts with `https://` and a host without `/` gives that host. */
  lemma {:induction false} HttpHostOfPrefix(host: string, rest: string)
    requires host != "" && '/' !in host
    ensures HttpHostMatch("https://" + host + "/" + rest) == Some(host)
    ensures HttpHostMatch("http://" + host + "/" + rest) == Some(host)
  {
    var s1 := "https://" + host + "/" + rest;
    var s2 := "http://" + host + "/" + rest;
    assert s1[0..8] == "https://";
    assert s2[0..7] == "http://";
    assert s1[8] == host[0] && s2[7] == host[0];
    assert HttpAt(s1, 0) && HttpAt(s2, 0);
    assert s1[8..] == host + "/" + rest;
    assert s2[7..] == host + "/" + rest;
    NonSlashRunOf(host, rest);
  }

  lemma {:induction false} NonSlashRunOf(host: string, rest: string)
    requires '/' !in host
    ensures NonSlashRun(host + "/" + rest) == host
    decreases |host|
  {
    var s := host + "/" + rest;
    if |host| == 0 {
      assert s[0] == '/';
    } else {
      assert s[0] == host[0] && s[1..] == host[1..] + "/" + rest;
      NonSlashRunOf(host[1..], rest);
      assert [host[0]] + host[1..] == host;
    }
  }
}
