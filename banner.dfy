/** What the two return-banner scripts (`target-page-script.js` and its older
    form `en-code-block.js`) do alike: read `was-redirected` and
    `originating-url`, move the originating address into a cookie and out of
    the address bar, choose the originating address, decide whether to show
    the banner, and add `no-redirect` to the address the link leads back to. */
module Banner {
  import opened Text
  import opened Cookies
  import opened QueryParams
  import opened Urls
  import opened Browser

  const OriginatingUrlCookie: string := "originatingUrl"
  const OriginatingUrlParam: string := "originating-url"
  const RedirectedParam: string := "was-redirected"
  const NoRedirectParam: string := "no-redirect"
  const Placeholder: string := "{domain}"
  const FallbackDomain: string := "the website"

  /** The banner's cookie name is one `getCookie` can find. */
  lemma OriginatingUrlCookieWellFormed()
    ensures WellFormedName(OriginatingUrlCookie)
  {
    LetterNameWellFormed(OriginatingUrlCookie);
  }

  /** `originatingUrlParam || originatingUrlCookie`, with JavaScript's `null`
      and "" both read as "". */
  function OriginatingUrl(param: Option<string>, cookie: Option<string>): (u: string)
    ensures Truthy(param) ==> u == param.value
    ensures !Truthy(param) ==> u == OrEmpty(cookie)
  {
    if Truthy(param) then param.value else OrEmpty(cookie)
  }

  /** `(isRedirected || isInIframe || originatingUrlCookie) && document.body`,
      with the cookie as read when the script started. */
  predicate ShowsBanner(page: Page, cookieAtLoad: Option<string>)
  {
    (Has(page.search, RedirectedParam) || page.inIframe || Truthy(cookieAtLoad)) && page.hasBody
  }

  /** The address written with `history.replaceState`: the path, then `?` and
      the remaining parameters only when any remain. */
  function AddressWithoutOriginating(page: Page, codec: Codec): string
  {
    var rest := Serialize(Delete(page.search, OriginatingUrlParam), codec);
    page.pathname + (if rest != "" then "?" + rest else "")
  }

  /** The rewritten address drops every `originating-url` and nothing else:
      it is the bare path exactly when no other parameter remains, and its
      query reads back as the other parameters in their order. */
  lemma AddressWithoutOriginatingMeaning(page: Page, codec: Codec)
    requires Faithful(codec) && '?' !in page.pathname && '#' !in page.pathname
    ensures var addr := AddressWithoutOriginating(page, codec);
      (addr == page.pathname <==> Delete(page.search, OriginatingUrlParam) == []) &&
      Parse(QueryText(addr), codec) == Delete(page.search, OriginatingUrlParam) &&
      !Has(Parse(QueryText(addr), codec), OriginatingUrlParam) &&
      forall name :: name != OriginatingUrlParam ==>
        Get(Parse(QueryText(addr), codec), name) == Get(page.search, name)
  {
    var rest := Delete(page.search, OriginatingUrlParam);
    var addr := AddressWithoutOriginating(page, codec);
    SerializeEmpty(rest, codec);
    var u := Url("", "", page.pathname, page.pathname, rest, "");
    assert addr == UrlString(u, codec);
    UrlStringQuery(u, codec);
    forall name | name != OriginatingUrlParam
      ensures Get(Parse(QueryText(addr), codec), name) == Get(page.search, name)
    {
      DeleteKeepsOthers(page.search, OriginatingUrlParam, name);
    }
  }

  /** `originatingUrl || document.referrer || location.origin + location.pathname`:
      where the return link leads. */
  function FallbackUrl(originating: string, page: Page): string
  {
    if originating != "" then originating
    else if page.referrer != "" then page.referrer
    else page.origin + page.pathname
  }

  /** `new URL(fallbackUrl)` with `searchParams.set("no-redirect", "")`. */
  function WithNoRedirect(u: Url): Url
  {
    u.(search := Set(u.search, NoRedirectParam, ""))
  }

  /** The back link differs from the address it came from only in its query:
      exactly one `no-redirect`, empty, and every other parameter kept in its
      order. Read back from its text, it carries `no-redirect`. */
  lemma WithNoRedirectMeaning(u: Url, codec: Codec)
    requires WellFormedUrl(u) && Faithful(codec)
    ensures var v := WithNoRedirect(u);
      v.protocol == u.protocol && v.hostname == u.hostname && v.pathname == u.pathname &&
      v.head == u.head && v.hash == u.hash && WellFormedUrl(v) &&
      Count(v.search, NoRedirectParam) == 1 && Get(v.search, NoRedirectParam) == Some("") &&
      Delete(v.search, NoRedirectParam) == Delete(u.search, NoRedirectParam) &&
      Parse(QueryText(UrlString(v, codec)), codec) == v.search &&
      Has(Parse(QueryText(UrlString(v, codec)), codec), NoRedirectParam)
  {
    var v := WithNoRedirect(u);
    SetMeaning(u.search, NoRedirectParam, "");
    UrlStringQuery(v, codec);
  }

  /** The back link as text: the address it came from up to its query, then
      a query that reads back with exactly one empty `no-redirect` and every
      other parameter of the original in order. */
  lemma BackLinkMeaning(u: Url, codec: Codec)
    requires WellFormedUrl(u) && Faithful(codec)
    ensures var s := UrlString(WithNoRedirect(u), codec);
      var back := Parse(QueryText(s), codec);
      StartsWith(s, u.head) &&
      Count(back, NoRedirectParam) == 1 && Get(back, NoRedirectParam) == Some("") &&
      Delete(back, NoRedirectParam) == Delete(u.search, NoRedirectParam)
  {
    var v := WithNoRedirect(u);
    var s := UrlString(v, codec);
    WithNoRedirectMeaning(u, codec);
    assert Parse(QueryText(s), codec) == v.search;
    UrlStringStartsWithHead(v, codec);
  }

  /** A URL's text begins with its head. */
  lemma UrlStringStartsWithHead(u: Url, codec: Codec)
    ensures StartsWith(UrlString(u, codec), u.head)
  {
    var s := UrlString(u, codec);
    assert s == u.head + ((if u.search == [] then "" else "?" + Serialize(u.search, codec)) + u.hash);
    assert s[..|u.head|] == u.head;
  }

  /** `template.replace("{domain}", domain)`. */
  function FillTemplate(template: string, domain: string): string
  {
    ReplaceFirst(template, Placeholder, domain)
  }
}
