/** `en-code-block.js`: the older return banner, pasted into the landing
    page as a code block. Its template and cookie lifetime are constants; it
    saves any non-empty `originating-url` without checking it, writes the
    cookie without `SameSite` or `Secure`, shows whatever host the parser
    reports, and its link leads back to any address the parser accepts. */
module EnCodeBlock {
  import opened Text
  import opened Cookies
  import opened QueryParams
  import opened Urls
  import opened Browser
  import opened Banner

  const ReturnLinkTextTemplate: string := "Click here to continue to {domain}"
  const CookieExpirationSeconds: int := 1800

  /** The banner text before the domain. */
  const TemplateLead: string := "Click here to continue to "

  // ---------------------------------------------------------------------------
  // getDomainFromUrl and getReturnLinkText
  // ---------------------------------------------------------------------------

  /** `getDomainFromUrl(url)`: the host name the parser reports, whatever the
      scheme and even when empty; for an address the parser refuses, the host
      after the leftmost `http://` or `https://`, or else the text itself. */
  function GetDomainFromUrl(url: string, parse: Parser): (domain: string)
  {
    match parse(url)
    case Some(u) => u.hostname
    case None =>
      match HttpHostMatch(url)
      case Some(host) => host
      case None => url
  }

  /** `getReturnLinkText()`: "the website" only when there is no source at
      all; otherwise the domain, as it is. */
  function ReturnLinkText(originating: string, referrer: string, parse: Parser): string
  {
    var source := if originating != "" then originating else referrer;
    if source == "" then FillTemplate(ReturnLinkTextTemplate, FallbackDomain)
    else FillTemplate(ReturnLinkTextTemplate, GetDomainFromUrl(source, parse))
  }

  /** The shipped template holds `{domain}` once, at its end: filling it
      appends the domain to the lead text. */
  lemma FillShippedTemplate(domain: string)
    requires '$' !in domain
    ensures FillTemplate(ReturnLinkTextTemplate, domain) == TemplateLead + domain
  {
    assert ReturnLinkTextTemplate == TemplateLead + Placeholder;
    FillAfterLead(TemplateLead, domain);
  }

  /** A template that ends in its only `{domain}` is filled by appending the
      domain to the text before it. */
  lemma FillAfterLead(lead: string, domain: string)
    requires '{' !in lead && '$' !in domain
    ensures FillTemplate(lead + Placeholder, domain) == lead + domain
  {
    var t := lead + Placeholder;
    var n := |lead|;
    assert OccursAt(t, Placeholder, n) by {
      assert t[n..n + |Placeholder|] == Placeholder;
    }
    forall j | 0 <= j < n
      ensures !OccursAt(t, Placeholder, j)
    {
      assert t[j] == lead[j];
      if j + |Placeholder| <= |t| {
        assert t[j..j + |Placeholder|][0] == t[j] != Placeholder[0];
      }
    }
    IndexOfFirstAt(t, Placeholder, n);
    assert t[..n] == lead;
    assert t[n + |Placeholder|..] == "";
  }

  /** What the link says: the built-in template filled with "the website"
      when there is no source, or else with the domain of the originating
      address (or of the referrer), taken as it is: it may be empty, or be
      the source itself. When that domain holds no `$`, the text is the lead
      text followed by it; a `$` pattern in it is expanded by the fill. */
  lemma ReturnLinkTextMeaning(originating: string, referrer: string, parse: Parser)
    ensures var source := if originating != "" then originating else referrer;
      var shown := if source == "" then FallbackDomain else GetDomainFromUrl(source, parse);
      ReturnLinkText(originating, referrer, parse) == FillTemplate(ReturnLinkTextTemplate, shown)
    ensures var source := if originating != "" then originating else referrer;
      var shown := if source == "" then FallbackDomain else GetDomainFromUrl(source, parse);
      '$' !in shown ==> ReturnLinkText(originating, referrer, parse) == TemplateLead + shown
    ensures originating == "" && referrer == "" ==>
      ReturnLinkText(originating, referrer, parse) == TemplateLead + FallbackDomain
  {
    var source := if originating != "" then originating else referrer;
    var shown := if source == "" then FallbackDomain else GetDomainFromUrl(source, parse);
    if '$' !in shown {
      FillShippedTemplate(shown);
    }
    if source == "" {
      assert '$' !in FallbackDomain;
    }
  }

  /** An address the parser accepts but that has no host (`mailto:`, say)
      leaves the link text ending in nothing. */
  lemma EmptyHostShownEmpty(originating: string, referrer: string, parse: Parser)
    requires originating != "" && parse(originating).Some? && parse(originating).value.hostname == ""
    ensures ReturnLinkText(originating, referrer, parse) == TemplateLead
  {
    FillShippedTemplate("");
  }

  /** Text the parser refuses and that holds no `http://` or `https://`
      host is shown in full as the domain. */
  lemma UnparsedSourceShownWhole(originating: string, referrer: string, parse: Parser)
    requires originating != "" && parse(originating).None? && HttpHostMatch(originating).None?
    requires '$' !in originating
    ensures ReturnLinkText(originating, referrer, parse) == TemplateLead + originating
  {
    FillShippedTemplate(originating);
  }

  /** An unparsed `https://` address is shown by its host. */
  lemma UnparsedHttpShowsHost(host: string, rest: string, referrer: string, parse: Parser)
    requires host != "" && '/' !in host && '$' !in host
    requires parse("https://" + host + "/" + rest).None?
    ensures ReturnLinkText("https://" + host + "/" + rest, referrer, parse) == TemplateLead + host
  {
    HttpHostOfPrefix(host, rest);
    FillShippedTemplate(host);
  }

  // ---------------------------------------------------------------------------
  // a page load
  // ---------------------------------------------------------------------------

  /** `if (originatingUrlParam)`: any non-empty value is saved. */
  predicate SavesParam(page: Page)
  {
    Truthy(Get(page.search, OriginatingUrlParam))
  }

  /** What `setCookie("originatingUrl", param, 1800)` writes: `path=/` and
      nothing else. */
  function OriginatingWrite(page: Page, value: string): CookieWrite
  {
    CookieWrite(OriginatingUrlCookie, value, ExpiryAfterSeconds(page.nowMs, CookieExpirationSeconds), false, false)
  }

  /** The originating address of this load: the parameter if non-empty, else
      the cookie read at load. */
  function Originating(page: Page): string
  {
    OriginatingUrl(Get(page.search, OriginatingUrlParam), CookieValue(page.cookieJar, OriginatingUrlCookie))
  }

  /** What saving the parameter does: the cookie write, then the address
      rewrite where `history.replaceState` exists. */
  function SaveEffects(page: Page, codec: Codec): seq<Effect>
  {
    if SavesParam(page) then
      [SetCookie(OriginatingWrite(page, Get(page.search, OriginatingUrlParam).value))] +
      (if page.hasReplaceState then [ReplaceState(AddressWithoutOriginating(page, codec))] else [])
    else []
  }

  /** The banner, if shown, with its link target and text. */
  function BannerEffects(page: Page, parse: Parser): (effects: seq<Effect>)
    ensures forall k :: 0 <= k < |effects| ==> effects[k].ShowBanner?
  {
    var originating := Originating(page);
    if ShowsBanner(page, CookieValue(page.cookieJar, OriginatingUrlCookie)) then
      [ShowBanner(if originating != "" then originating else "#", ReturnLinkText(originating, page.referrer, parse))]
    else []
  }

  /** The effects of one load, in order. */
  function Load(page: Page, parse: Parser, codec: Codec): seq<Effect>
  {
    SaveEffects(page, codec) + BannerEffects(page, parse)
  }

  /** Where a click on the return link leads: the fallback address with
      `no-redirect` set when the parser accepts it, whatever its scheme, and
      otherwise this page with `?no-redirect`. */
  function ClickTarget(originating: string, page: Page, parse: Parser, codec: Codec): string
  {
    var fallback := FallbackUrl(originating, page);
    match parse(fallback)
    case Some(u) => UrlString(WithNoRedirect(u), codec)
    case None => page.origin + page.pathname + "?no-redirect"
  }

  /** The code block on one page load, and the click handler it installs. */
  class Run {
    const page: Page
    const parse: Parser
    const codec: Codec
    var effects: seq<Effect>

    constructor(page: Page, parse: Parser, codec: Codec)
      ensures this.page == page && this.parse == parse && this.codec == codec
      ensures effects == []
    {
      this.page := page;
      this.parse := parse;
      this.codec := codec;
      effects := [];
    }

    /** `setCookie(name, value, seconds)`: `path=/` only. */
    method SetCookieForSeconds(name: string, value: string, seconds: int)
      modifies this
      ensures effects == old(effects) + [SetCookie(CookieWrite(name, value, ExpiryAfterSeconds(page.nowMs, seconds), false, false))]
    {
      var expires := page.nowMs + seconds * 1000;
      effects := effects + [SetCookie(CookieWrite(name, value, expires, false, false))];
    }

    /** The code block run on load. */
    method Execute()
      requires effects == []
      modifies this
      ensures effects == Load(page, parse, codec)
    {
      var queryParams := page.search;
      var param := Get(queryParams, OriginatingUrlParam);
      var cookie := GetCookie(page.cookieJar, OriginatingUrlCookie);
      if Truthy(param) {
        SetCookieForSeconds(OriginatingUrlCookie, param.value, CookieExpirationSeconds);
        queryParams := Delete(queryParams, OriginatingUrlParam);
        var newQuery := Serialize(queryParams, codec);
        var newUrl := page.pathname + (if newQuery != "" then "?" + newQuery else "");
        if page.hasReplaceState {
          effects := effects + [ReplaceState(newUrl)];
        }
      }
      assert effects == SaveEffects(page, codec);
      var originating := OriginatingUrl(param, cookie);
      assert originating == Originating(page);
      if ShowsBanner(page, cookie) {
        var text := ReturnLinkText(originating, page.referrer, parse);
        effects := effects + [ShowBanner(if originating != "" then originating else "#", text)];
      }
    }

    /** The click handler of the return link: it always navigates. */
    method Click()
      requires ShowsBanner(page, CookieValue(page.cookieJar, OriginatingUrlCookie))
      modifies this
      ensures effects == old(effects) + [Navigate(ClickTarget(Originating(page), page, parse, codec))]
    {
      var originating := Originating(page);
      var fallback := FallbackUrl(originating, page);
      var parsed := parse(fallback);
      if parsed.Some? {
        var originalUrl := parsed.value;
        originalUrl := originalUrl.(search := Set(originalUrl.search, NoRedirectParam, ""));
        effects := effects + [Navigate(UrlString(originalUrl, codec))];
      } else {
        effects := effects + [Navigate(page.origin + page.pathname + "?no-redirect")];
      }
    }
  }

  /** Any non-empty parameter is saved, valid address or not, and the
      address rewritten where the browser can; the cookie write comes first
      and the address rewrite second. */
  lemma SavesAnyParam(page: Page, parse: Parser, codec: Codec)
    ensures WritesCookie(Load(page, parse, codec)) <==> Truthy(Get(page.search, OriginatingUrlParam))
    ensures RewritesAddress(Load(page, parse, codec)) <==> Truthy(Get(page.search, OriginatingUrlParam)) && page.hasReplaceState
    ensures var effects := Load(page, parse, codec);
      SavesParam(page) ==>
        |effects| >= (if page.hasReplaceState then 2 else 1) &&
        effects[0] == SetCookie(OriginatingWrite(page, Get(page.search, OriginatingUrlParam).value)) &&
        (page.hasReplaceState ==> effects[1] == ReplaceState(AddressWithoutOriginating(page, codec)))
  {
    var saved := SaveEffects(page, codec);
    var banner := BannerEffects(page, parse);
    assert Load(page, parse, codec) == saved + banner;
    BannerOnlyAfter(saved, banner);
    if SavesParam(page) {
      assert saved[0].SetCookie?;
      if page.hasReplaceState {
        assert saved[1].ReplaceState?;
      }
    }
  }

  /** The cookie the code block writes lives half an hour and carries neither
      `SameSite` nor `Secure`, even on an `https:` page. */
  lemma OriginatingWriteMeaning(page: Page, value: string)
    ensures var w := OriginatingWrite(page, value);
      w.name == "originatingUrl" && w.value == value &&
      w.expiresAtMs == page.nowMs + 1800000 && !w.sameSiteLax && !w.secure
  {
  }

  /** The banner appears exactly when the page has a body and the visitor was
      redirected, is in a frame, or already had a non-empty cookie before this
      load; its link carries the originating address, or `#`. */
  lemma BannerMeaning(page: Page, parse: Parser, codec: Codec)
    ensures var effects := Load(page, parse, codec);
      var cookie := CookieValue(page.cookieJar, OriginatingUrlCookie);
      (|effects| > 0 && effects[|effects| - 1].ShowBanner? <==> ShowsBanner(page, cookie)) &&
      (ShowsBanner(page, cookie) ==>
        effects[|effects| - 1].href == (if Originating(page) != "" then Originating(page) else "#") &&
        (Truthy(Get(page.search, OriginatingUrlParam)) ==> effects[|effects| - 1].href == Get(page.search, OriginatingUrlParam).value))
  {
  }

  /** A click leads back to the originating address, or else the referrer,
      or else this page. An address the parser accepts is followed whatever
      its scheme, with exactly one empty `no-redirect` and every other
      parameter kept; one it refuses is replaced by this page with
      `?no-redirect`. */
  lemma ClickTargetMeaning(originating: string, page: Page, parse: Parser, codec: Codec)
    requires Faithful(codec)
    requires var f := FallbackUrl(originating, page); parse(f).Some? ==> WellFormedUrl(parse(f).value)
    ensures var f := FallbackUrl(originating, page);
      var r := ClickTarget(originating, page, parse, codec);
      (originating != "" ==> f == originating) &&
      (originating == "" && page.referrer != "" ==> f == page.referrer) &&
      (originating == "" && page.referrer == "" ==> f == page.origin + page.pathname) &&
      (parse(f).None? ==> r == page.origin + page.pathname + "?no-redirect") &&
      (parse(f).Some? ==>
        var u := parse(f).value;
        var back := Parse(QueryText(r), codec);
        StartsWith(r, u.head) &&
        Count(back, NoRedirectParam) == 1 && Get(back, NoRedirectParam) == Some("") &&
        Delete(back, NoRedirectParam) == Delete(u.search, NoRedirectParam))
  {
    var f := FallbackUrl(originating, page);
    if parse(f).Some? {
      BackLinkMeaning(parse(f).value, codec);
    }
  }
}
