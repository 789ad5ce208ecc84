/** `target-page-script.js`: the configurable return banner with validated
    addresses. A load checks the configuration, moves a valid
    `originating-url` into a cookie and out of the address bar, and shows the
    banner; a click on its link leads back with `no-redirect`. */
module TargetPageScript {
  import opened Text
  import opened Cookies
  import opened QueryParams
  import opened Urls
  import opened Browser
  import opened Banner

  /** `window.targetPageConfig`: `returnLinkTextTemplate` is `None` when it is
      missing or not a string, `cookieExpirationSeconds` when it is absent.
      The two style strings only affect layout. */
  datatype Config = Config(returnLinkTextTemplate: Option<string>, cookieExpirationSeconds: Option<int>)

  const DefaultExpirationSeconds: int := 1800
  const FilePageLabel: string := "the original page"

  /** Whether the configuration guards let the script go on. */
  predicate Configured(config: Option<Config>)
  {
    config.Some? && config.value.returnLinkTextTemplate.Some? && config.value.returnLinkTextTemplate.value != ""
  }

  /** `config.cookieExpirationSeconds || 1800`: both an absent value and 0
      fall back. */
  function ExpirationSeconds(c: Config): (seconds: int)
    ensures seconds != 0
    ensures c.cookieExpirationSeconds.Some? && c.cookieExpirationSeconds.value != 0 ==> seconds == c.cookieExpirationSeconds.value
    ensures c.cookieExpirationSeconds.None? || c.cookieExpirationSeconds.value == 0 ==> seconds == DefaultExpirationSeconds
  {
    if c.cookieExpirationSeconds.Some? && c.cookieExpirationSeconds.value != 0 then c.cookieExpirationSeconds.value
    else DefaultExpirationSeconds
  }

  // ---------------------------------------------------------------------------
  // getDomainFromUrl
  // ---------------------------------------------------------------------------

  /** `name.replace(/\.html?$/, "")`: a trailing `.html` or `.htm`, in lower
      case only, is removed. */
  function StripHtmlSuffix(name: string): (r: string)
    ensures name == r + ".html" || name == r + ".htm" || name == r
    ensures name == r <==> !(|name| >= 5 && name[|name| - 5..] == ".html") && !(|name| >= 4 && name[|name| - 4..] == ".htm")
  {
    if |name| >= 5 && name[|name| - 5..] == ".html" then
      assert name == name[..|name| - 5] + ".html";
      name[..|name| - 5]
    else if |name| >= 4 && name[|name| - 4..] == ".htm" then
      assert name == name[..|name| - 4] + ".htm";
      name[..|name| - 4]
    else name
  }

  /** `pathname.split("/").filter(Boolean)`: the non-empty path segments. */
  function NonEmptySegments(parts: seq<string>): (r: seq<string>)
    ensures forall k :: 0 <= k < |r| ==> r[k] != "" && r[k] in parts
    ensures (exists k :: 0 <= k < |parts| && parts[k] != "") ==> |r| > 0
  {
    if |parts| == 0 then []
    else if parts[0] == "" then NonEmptySegments(parts[1..])
    else [parts[0]] + NonEmptySegments(parts[1..])
  }

  /** The name a `file:` address is shown by: its last non-empty path
      segment without `.html`/`.htm`, or "the original page" when there is
      none or nothing is left. */
  function FileLabel(pathname: string): (name: string)
    ensures name != ""
  {
    var parts := NonEmptySegments(Split(pathname, '/'));
    if |parts| > 0 then
      var name := StripHtmlSuffix(parts[|parts| - 1]);
      if name != "" then name else FilePageLabel
    else FilePageLabel
  }

  /** A `file:` address whose path ends in a named segment is shown by that
      name without `.html`/`.htm`, or by "the original page" when nothing of
      the name is left. */
  lemma FileLabelOfLastSegment(dir: string, name: string)
    requires name != "" && '/' !in name
    ensures FileLabel(dir + "/" + name) ==
      if StripHtmlSuffix(name) != "" then StripHtmlSuffix(name) else FilePageLabel
  {
    assert dir + "/" + name == dir + ['/'] + name;
    SplitAtSeparator(dir, name, '/');
    SplitWithoutSeparator(name, '/');
    NonEmptySegmentsAppend(Split(dir, '/'), [name]);
    assert NonEmptySegments([name]) == [name];
  }

  /** A `file:` path made of slashes only has no segment, so it is shown by
      "the original page". */
  lemma FileLabelWithoutSegments(pathname: string)
    requires forall k :: 0 <= k < |pathname| ==> pathname[k] == '/'
    ensures FileLabel(pathname) == FilePageLabel
  {
    SlashesSplitEmpty(pathname);
    EmptySegmentsDropped(Split(pathname, '/'));
  }

  /** Filtering empty segments distributes over concatenation. */
  lemma {:induction false} NonEmptySegmentsAppend(a: seq<string>, b: seq<string>)
    ensures NonEmptySegments(a + b) == NonEmptySegments(a) + NonEmptySegments(b)
    decreases |a|
  {
    if |a| > 0 {
      assert (a + b)[0] == a[0];
      assert (a + b)[1..] == a[1..] + b;
      NonEmptySegmentsAppend(a[1..], b);
    } else {
      assert a + b == b;
    }
  }

  /** Splitting a run of slashes gives only empty pieces. */
  lemma {:induction false} SlashesSplitEmpty(s: string)
    requires forall k :: 0 <= k < |s| ==> s[k] == '/'
    ensures forall k :: 0 <= k < |Split(s, '/')| ==> Split(s, '/')[k] == ""
    decreases |s|
  {
    if |s| > 0 {
      SlashesSplitEmpty(s[1..]);
      assert Split(s, '/') == [""] + Split(s[1..], '/');
    }
  }

  /** Only empty segments leave nothing. */
  lemma {:induction false} EmptySegmentsDropped(parts: seq<string>)
    requires forall k :: 0 <= k < |parts| ==> parts[k] == ""
    ensures NonEmptySegments(parts) == []
    decreases |parts|
  {
    if |parts| > 0 {
      EmptySegmentsDropped(parts[1..]);
    }
  }

  /** `/file:\/\/\/.+?\/([^\/]+\.html?)/i`: the regular expression the script
      falls back to for a `file:` address the parser refused. The letters
      match in either case; `.` stops at a line terminator. */
  predicate SameLetter(c: char, lower: char)
  {
    c == lower || ('a' <= lower <= 'z' && c as int == lower as int - 32)
  }

  predicate OccursAtIgnoringCase(s: string, p: string, i: nat)
  {
    i + |p| <= |s| && forall k :: 0 <= k < |p| ==> SameLetter(s[i + k], p[k])
  }

  predicate IsLineTerminator(c: char)
  {
    c == '\n' || c == '\r' || c == '\U{2028}' || c == '\U{2029}'
  }

  /** The last position in `[lo, hi]` where `.htm` starts, in any case. */
  function LastHtm(s: string, lo: nat, hi: int): (r: Option<nat>)
    ensures r.Some? ==> lo <= r.value <= hi && OccursAtIgnoringCase(s, ".htm", r.value)
    ensures r.Some? ==> forall k :: r.value < k <= hi ==> !OccursAtIgnoringCase(s, ".htm", k)
    ensures r.None? ==> forall k :: lo <= k <= hi ==> !OccursAtIgnoringCase(s, ".htm", k)
    decreases hi - lo
  {
    if hi < lo then None
    else if OccursAtIgnoringCase(s, ".htm", hi) then Some(hi)
    else LastHtm(s, lo, hi - 1)
  }

  /** `([^\/]+\.html?)` tried at position `a`: the greedy `[^/]+` gives back
      characters until `.htm` follows, then an `l` is taken if there is one. */
  function HtmlNameAt(s: string, a: nat): (r: Option<string>)
    requires a <= |s|
    ensures r.Some? ==> |r.value| >= 5 && '/' !in r.value
  {
    var run := NonSlashRun(s[a..]);
    match LastHtm(s, a + 1, a + |run| - 4)
    case None => None
    case Some(k) =>
      assert s[a..k + 4] == run[..k + 4 - a];
      if k + 4 < |s| && SameLetter(s[k + 4], 'l') then
        assert s[a..k + 5] == run[..k + 5 - a];
        Some(s[a..k + 5])
      else Some(s[a..k + 4])
  }

  /** The lazy `.+?\/` followed by the group: the first `/` at or after `j`
      after which the group matches, as long as no line terminator
      intervenes. */
  function LazyThenName(s: string, j: nat): (r: Option<string>)
    ensures r.Some? ==> |r.value| >= 5 && '/' !in r.value
    decreases |s| - j
  {
    if j >= |s| then None
    else if s[j] == '/' && HtmlNameAt(s, j + 1).Some? then HtmlNameAt(s, j + 1)
    else if IsLineTerminator(s[j]) then None
    else LazyThenName(s, j + 1)
  }

  /** The first capture of the `file:` pattern, starting the search at `p`. */
  function FileNameMatch(s: string, p: nat): (r: Option<string>)
    ensures r.Some? ==> |r.value| >= 5 && '/' !in r.value
    decreases |s| - p
  {
    if p + 9 > |s| then None
    else if OccursAtIgnoringCase(s, "file:///", p) && !IsLineTerminator(s[p + 8]) && LazyThenName(s, p + 9).Some? then
      LazyThenName(s, p + 9)
    else FileNameMatch(s, p + 1)
  }

  /** `getDomainFromUrl(url)`: `None` for JavaScript's `null`. */
  function GetDomainFromUrl(url: string, parse: Parser): (r: Option<string>)
    ensures url == "" ==> r.None?
    ensures url != "" && parse(url).Some? && IsHttpScheme(parse(url).value) ==> r == Some(parse(url).value.hostname)
    ensures url != "" && parse(url).Some? && parse(url).value.protocol == "file:" ==>
      r == Some(FileLabel(parse(url).value.pathname)) && r.value != "" && '/' !in r.value
    ensures url != "" && parse(url).Some? && parse(url).value.protocol != "file:" && !IsHttpScheme(parse(url).value) ==>
      r == if parse(url).value.hostname != "" then Some(parse(url).value.hostname) else None
    ensures url != "" && parse(url).None? && HttpHostMatch(url).Some? ==> r == HttpHostMatch(url)
    ensures url != "" && parse(url).None? && HttpHostMatch(url).None? ==>
      r == if FileNameMatch(url, 0).Some? then Some(StripHtmlSuffix(FileNameMatch(url, 0).value)) else None
  {
    if url == "" then None
    else match parse(url)
      case Some(u) =>
        if u.protocol == "file:" then
          FileLabelHasNoSlash(u.pathname);
          Some(FileLabel(u.pathname))
        else if IsHttpScheme(u) then Some(u.hostname)
        else if u.hostname != "" then Some(u.hostname)
        else None
      case None =>
        match HttpHostMatch(url)
        case Some(host) => Some(host)
        case None =>
          match FileNameMatch(url, 0)
          case Some(name) => Some(StripHtmlSuffix(name))
          case None => None
  }

  /** A `file:` label is a path segment (or the generic label), never a
      path. */
  lemma FileLabelHasNoSlash(pathname: string)
    ensures '/' !in FileLabel(pathname)
  {
    var parts := NonEmptySegments(Split(pathname, '/'));
    if |parts| > 0 {
      var last := parts[|parts| - 1];
      SplitPiecesAvoid(pathname, '/');
      assert last in Split(pathname, '/');
      assert '/' !in last;
    }
  }

  /** No piece of a split holds the separator. */
  lemma {:induction false} SplitPiecesAvoid(s: string, sep: char)
    ensures forall k :: 0 <= k < |Split(s, sep)| ==> sep !in Split(s, sep)[k]
    decreases |s|
  {
    if |s| > 0 {
      SplitPiecesAvoid(s[1..], sep);
      var rest := Split(s[1..], sep);
      if s[0] != sep {
        assert sep !in [s[0]] + rest[0];
        assert Split(s, sep)[1..] == rest[1..];
      } else {
        assert Split(s, sep)[1..] == rest;
      }
    }
  }

  // ---------------------------------------------------------------------------
  // getReturnLinkText
  // ---------------------------------------------------------------------------

  /** `getReturnLinkText()`. */
  function ReturnLinkText(template: string, originating: string, referrer: string, parse: Parser): string
  {
    var source := if originating != "" then originating else referrer;
    if source == "" then FillTemplate(template, FallbackDomain)
    else
      var domain := GetDomainFromUrl(source, parse);
      if domain.None? || domain.value == "" || domain.value == source then FillTemplate(template, FallbackDomain)
      else FillTemplate(template, domain.value)
  }

  /** What the link says: the first `{domain}` in the template is replaced by
      the domain of the originating address (or else of the referrer), and by
      "the website" when there is no source, or its domain is missing, empty,
      or the source itself. A template without `{domain}` is shown as it is. */
  lemma ReturnLinkTextMeaning(template: string, originating: string, referrer: string, parse: Parser)
    ensures var source := if originating != "" then originating else referrer;
      var domain := GetDomainFromUrl(source, parse);
      var shown := if source == "" || domain.None? || domain.value == "" || domain.value == source
        then FallbackDomain else domain.value;
      ReturnLinkText(template, originating, referrer, parse) == FillTemplate(template, shown) &&
      (IndexOf(template, Placeholder).None? ==> ReturnLinkText(template, originating, referrer, parse) == template) &&
      (IndexOf(template, Placeholder).Some? && '$' !in shown ==>
        var i := IndexOf(template, Placeholder).value;
        ReturnLinkText(template, originating, referrer, parse) == template[..i] + shown + template[i + |Placeholder|..])
  {
  }

  /** An `http`/`https` originating address is shown by its host name. */
  lemma LinkTextShowsHost(template: string, originating: string, referrer: string, parse: Parser)
    requires originating != "" && parse(originating).Some? && IsHttpScheme(parse(originating).value)
    requires var h := parse(originating).value.hostname; h != "" && h != originating
    ensures ReturnLinkText(template, originating, referrer, parse) ==
      FillTemplate(template, parse(originating).value.hostname)
  {
  }

  // ---------------------------------------------------------------------------
  // a page load
  // ---------------------------------------------------------------------------

  /** Whether the `originating-url` parameter is non-empty and a valid
      `http`/`https` address: only then is it saved and removed. */
  predicate SavesParam(page: Page, parse: Parser)
  {
    Truthy(Get(page.search, OriginatingUrlParam)) && IsValidUrl(Get(page.search, OriginatingUrlParam).value, parse)
  }

  /** What `setCookie("originatingUrl", param, COOKIE_EXPIRATION_SECONDS)`
      writes: `path=/`, `SameSite=Lax`, `Secure` on an `https:` page. */
  function OriginatingWrite(c: Config, page: Page, value: string): CookieWrite
  {
    CookieWrite(OriginatingUrlCookie, value, ExpiryAfterSeconds(page.nowMs, ExpirationSeconds(c)), true, SecureOn(page))
  }

  /** The originating address of this load: the parameter if non-empty,
      validated or not, else the cookie read at load. */
  function Originating(page: Page): string
  {
    OriginatingUrl(Get(page.search, OriginatingUrlParam), CookieValue(page.cookieJar, OriginatingUrlCookie))
  }

  /** What saving a valid parameter does: the cookie write, then the
      address rewrite where `history.replaceState` exists. */
  function SaveEffects(c: Config, page: Page, parse: Parser, codec: Codec): seq<Effect>
  {
    if SavesParam(page, parse) then
      [SetCookie(OriginatingWrite(c, page, Get(page.search, OriginatingUrlParam).value))] +
      (if page.hasReplaceState then [ReplaceState(AddressWithoutOriginating(page, codec))] else [])
    else []
  }

  /** The banner, if shown, with its link target and text. */
  function BannerEffects(c: Config, page: Page, parse: Parser): (effects: seq<Effect>)
    requires Configured(Some(c))
    ensures forall k :: 0 <= k < |effects| ==> effects[k].ShowBanner?
  {
    var cookie := CookieValue(page.cookieJar, OriginatingUrlCookie);
    var originating := Originating(page);
    if ShowsBanner(page, cookie) then
      [ShowBanner(if originating != "" then originating else "#",
                  ReturnLinkText(c.returnLinkTextTemplate.value, originating, page.referrer, parse))]
    else []
  }

  /** The effects of one load, in order. */
  function Load(config: Option<Config>, page: Page, parse: Parser, codec: Codec): seq<Effect>
  {
    if !Configured(config) then []
    else SaveEffects(config.value, page, parse, codec) + BannerEffects(config.value, page, parse)
  }

  /** Where a click on the return link leads: nowhere when the fallback
      address is not a valid `http`/`https` address, else that address with
      `no-redirect` set. */
  function ClickTarget(originating: string, page: Page, parse: Parser, codec: Codec): (r: Option<string>)
    ensures r.Some? <==> IsValidUrl(FallbackUrl(originating, page), parse)
  {
    var fallback := FallbackUrl(originating, page);
    if !IsValidUrl(fallback, parse) then None
    else Some(UrlString(WithNoRedirect(parse(fallback).value), codec))
  }

  /** The script on one page load, and the click handler it installs. */
  class Run {
    const config: Option<Config>
    const page: Page
    const parse: Parser
    const codec: Codec
    var effects: seq<Effect>

    constructor(config: Option<Config>, page: Page, parse: Parser, codec: Codec)
      ensures this.config == config && this.page == page && this.parse == parse && this.codec == codec
      ensures effects == []
    {
      this.config := config;
      this.page := page;
      this.parse := parse;
      this.codec := codec;
      effects := [];
    }

    /** `setCookie(name, value, seconds)`: `path=/`, `SameSite=Lax`, and
        `Secure` on an `https:` page. */
    method SetCookieForSeconds(name: string, value: string, seconds: int)
      modifies this
      ensures effects == old(effects) + [SetCookie(CookieWrite(name, value, ExpiryAfterSeconds(page.nowMs, seconds), true, SecureOn(page)))]
    {
      var expires := page.nowMs + seconds * 1000;
      var secure := page.protocol == "https:";
      effects := effects + [SetCookie(CookieWrite(name, value, expires, true, secure))];
    }

    /** The script body run on load: the configuration guards, then the
        saving of the parameter and the banner. */
    method Execute()
      requires effects == []
      modifies this
      ensures effects == Load(config, page, parse, codec)
    {
      if config.None? {
        return;
      }
      var c := config.value;
      if c.returnLinkTextTemplate.None? || c.returnLinkTextTemplate.value == "" {
        return;
      }
      SaveParam();
      ShowReturnBanner();
    }

    /** A non-empty valid `originating-url` goes into the cookie and out of
        the address bar. */
    method SaveParam()
      requires Configured(config)
      modifies this
      ensures effects == old(effects) + SaveEffects(config.value, page, parse, codec)
    {
      var seconds := ExpirationSeconds(config.value);
      var queryParams := page.search;
      var param := Get(queryParams, OriginatingUrlParam);
      if Truthy(param) && IsValidUrl(param.value, parse) {
        SetCookieForSeconds(OriginatingUrlCookie, param.value, seconds);
        queryParams := Delete(queryParams, OriginatingUrlParam);
        var newQuery := Serialize(queryParams, codec);
        var newUrl := page.pathname + (if newQuery != "" then "?" + newQuery else "");
        if page.hasReplaceState {
          effects := effects + [ReplaceState(newUrl)];
        }
      }
    }

    /** The banner, with the cookie as read when the script started. */
    method ShowReturnBanner()
      requires Configured(config)
      modifies this
      ensures effects == old(effects) + BannerEffects(config.value, page, parse)
    {
      var template := config.value.returnLinkTextTemplate.value;
      var param := Get(page.search, OriginatingUrlParam);
      var cookie := GetCookie(page.cookieJar, OriginatingUrlCookie);
      var originating := OriginatingUrl(param, cookie);
      if ShowsBanner(page, cookie) {
        var text := ReturnLinkText(template, originating, page.referrer, parse);
        effects := effects + [ShowBanner(if originating != "" then originating else "#", text)];
      }
    }

    /** The click handler of the return link. */
    method Click()
      requires Configured(config) && ShowsBanner(page, CookieValue(page.cookieJar, OriginatingUrlCookie))
      modifies this
      ensures effects == old(effects) +
        match ClickTarget(Originating(page), page, parse, codec)
        case None => []
        case Some(url) => [Navigate(url)]
    {
      var originating := Originating(page);
      var fallback := FallbackUrl(originating, page);
      if !IsValidUrl(fallback, parse) {
        return;
      }
      var originalUrl := parse(fallback).value;
      originalUrl := originalUrl.(search := Set(originalUrl.search, NoRedirectParam, ""));
      effects := effects + [Navigate(UrlString(originalUrl, codec))];
    }
  }

  /** The parameter is saved, and the address rewritten where the browser
      can, exactly when it is a non-empty valid address, in that order and
      before the banner; otherwise the load writes no cookie and leaves the
      address alone. */
  lemma SavesOnlyValidParam(config: Option<Config>, page: Page, parse: Parser, codec: Codec)
    requires Configured(config)
    ensures WritesCookie(Load(config, page, parse, codec)) <==> SavesParam(page, parse)
    ensures RewritesAddress(Load(config, page, parse, codec)) <==> SavesParam(page, parse) && page.hasReplaceState
    ensures var effects := Load(config, page, parse, codec);
      SavesParam(page, parse) ==>
        effects[0] == SetCookie(OriginatingWrite(config.value, page, Get(page.search, OriginatingUrlParam).value)) &&
        (page.hasReplaceState ==> effects[1] == ReplaceState(AddressWithoutOriginating(page, codec)))
  {
    var c := config.value;
    var saved := SaveEffects(c, page, parse, codec);
    var banner := BannerEffects(c, page, parse);
    var effects := Load(config, page, parse, codec);
    assert effects == saved + banner;
    BannerOnlyAfter(saved, banner);
    SaveEffectsMeaning(c, page, parse, codec);
    if SavesParam(page, parse) {
      SavedComeFirst(c, page, parse, codec, banner);
    }
  }

  /** Whatever follows them, the cookie write and the address rewrite come
      first. */
  lemma SavedComeFirst(c: Config, page: Page, parse: Parser, codec: Codec, after: seq<Effect>)
    requires SavesParam(page, parse)
    ensures var effects := SaveEffects(c, page, parse, codec) + after;
      |effects| >= (if page.hasReplaceState then 2 else 1) &&
      effects[0] == SetCookie(OriginatingWrite(c, page, Get(page.search, OriginatingUrlParam).value)) &&
      (page.hasReplaceState ==> effects[1] == ReplaceState(AddressWithoutOriginating(page, codec)))
  {
  }

  /** Saving writes the cookie exactly when the parameter is valid, and
      rewrites the address exactly when it also can. */
  lemma SaveEffectsMeaning(c: Config, page: Page, parse: Parser, codec: Codec)
    ensures WritesCookie(SaveEffects(c, page, parse, codec)) <==> SavesParam(page, parse)
    ensures RewritesAddress(SaveEffects(c, page, parse, codec)) <==> SavesParam(page, parse) && page.hasReplaceState
  {
    var saved := SaveEffects(c, page, parse, codec);
    if SavesParam(page, parse) {
      assert saved[0].SetCookie?;
      if page.hasReplaceState {
        assert saved[1].ReplaceState?;
      }
    }
  }

  /** The banner appears exactly when the page has a body and the visitor was
      redirected, is in a frame, or already had a non-empty cookie before this
      load; its link carries the originating address, or `#` when there is
      none, even when the parameter was not valid enough to be saved. */
  lemma BannerMeaning(config: Option<Config>, page: Page, parse: Parser, codec: Codec)
    requires Configured(config)
    ensures var effects := Load(config, page, parse, codec);
      var cookie := CookieValue(page.cookieJar, OriginatingUrlCookie);
      (|effects| > 0 && effects[|effects| - 1].ShowBanner? <==> ShowsBanner(page, cookie)) &&
      (ShowsBanner(page, cookie) ==>
        effects[|effects| - 1].href == (if Originating(page) != "" then Originating(page) else "#") &&
        (Truthy(Get(page.search, OriginatingUrlParam)) ==> effects[|effects| - 1].href == Get(page.search, OriginatingUrlParam).value))
  {
  }

  /** Without a configuration object or a non-empty template the script does
      nothing. */
  lemma UnconfiguredDoesNothing(config: Option<Config>, page: Page, parse: Parser, codec: Codec)
    requires !Configured(config)
    ensures Load(config, page, parse, codec) == []
  {
  }

  /** A click leads back to the originating address, or else the referrer,
      or else this page, with exactly one empty `no-redirect` and every other
      parameter kept; an address that is not valid `http`/`https` is not
      followed at all. */
  lemma ClickTargetMeaning(originating: string, page: Page, parse: Parser, codec: Codec)
    requires Faithful(codec)
    requires var f := FallbackUrl(originating, page); parse(f).Some? ==> WellFormedUrl(parse(f).value)
    ensures var f := FallbackUrl(originating, page);
      var r := ClickTarget(originating, page, parse, codec);
      (originating != "" ==> f == originating) &&
      (originating == "" && page.referrer != "" ==> f == page.referrer) &&
      (originating == "" && page.referrer == "" ==> f == page.origin + page.pathname) &&
      (r.None? <==> !IsValidUrl(f, parse)) &&
      (r.Some? ==>
        var u := parse(f).value;
        var back := Parse(QueryText(r.value), codec);
        StartsWith(r.value, u.head) &&
        Count(back, NoRedirectParam) == 1 && Get(back, NoRedirectParam) == Some("") &&
        Delete(back, NoRedirectParam) == Delete(u.search, NoRedirectParam))
  {
    var f := FallbackUrl(originating, page);
    if IsValidUrl(f, parse) {
      BackLinkMeaning(parse(f).value, codec);
    }
  }
}
