/** The page a script runs on, as the scripts read it, and what a run does to
    the page and the browser, in the order it does it. */
module Browser {
  import opened QueryParams
  import opened Cookies

  /** What a script reads from its surroundings: `location.search` already
      parsed into pairs, `document.cookie`, `location.href`, `location.origin`,
      `location.pathname`, `location.protocol`, `document.referrer` ("" when
      there is none), `window.self !== window.top`, whether `document.body`
      exists, whether `window.history.replaceState` exists, and the clock in
      milliseconds since the epoch. */
  datatype Page = Page(
    search: Query,
    cookieJar: string,
    href: string,
    origin: string,
    pathname: string,
    protocol: string,
    referrer: string,
    inIframe: bool,
    hasBody: bool,
    hasReplaceState: bool,
    nowMs: int)

  /** An assignment to `document.cookie`, an assignment to
      `window.location.href`, a call of `history.replaceState`, or the banner
      with its return link inserted into the body. */
  datatype Effect =
    | SetCookie(write: CookieWrite)
    | Navigate(url: string)
    | ReplaceState(url: string)
    | ShowBanner(href: string, text: string)

  /** Whether a run leaves the page. */
  predicate Navigates(effects: seq<Effect>)
  {
    exists k :: 0 <= k < |effects| && effects[k].Navigate?
  }

  /** Whether a run writes a cookie. */
  predicate WritesCookie(effects: seq<Effect>)
  {
    exists k :: 0 <= k < |effects| && effects[k].SetCookie?
  }

  /** Whether a run rewrites the address in place. */
  predicate RewritesAddress(effects: seq<Effect>)
  {
    exists k :: 0 <= k < |effects| && effects[k].ReplaceState?
  }

  /** The `secure` flag the validated scripts add: only on an `https:` page. */
  function SecureOn(page: Page): bool
  {
    page.protocol == "https:"
  }

  /** Banner effects added after a run's other effects add no cookie write
      and no address rewrite, and keep the effects before them in place. */
  lemma BannerOnlyAfter(saved: seq<Effect>, banner: seq<Effect>)
    requires forall k :: 0 <= k < |banner| ==> banner[k].ShowBanner?
    ensures WritesCookie(saved + banner) <==> WritesCookie(saved)
    ensures RewritesAddress(saved + banner) <==> RewritesAddress(saved)
    ensures (saved + banner)[..|saved|] == saved
  {
    var all := saved + banner;
    if WritesCookie(all) {
      var k :| 0 <= k < |all| && all[k].SetCookie?;
      assert k < |saved| && saved[k].SetCookie?;
    }
    if WritesCookie(saved) {
      var k :| 0 <= k < |saved| && saved[k].SetCookie?;
      assert all[k].SetCookie?;
    }
    if RewritesAddress(all) {
      var k :| 0 <= k < |all| && all[k].ReplaceState?;
      assert k < |saved| && saved[k].ReplaceState?;
    }
    if RewritesAddress(saved) {
      var k :| 0 <= k < |saved| && saved[k].ReplaceState?;
      assert all[k].ReplaceState?;
    }
  }
}
