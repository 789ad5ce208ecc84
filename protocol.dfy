/** How the scripts work together across page loads: the dispatcher on the
    original site sends the visitor on with `was-redirected` and
    `originating-url`, the banner on the destination remembers where they
    came from, its link brings them back with `no-redirect`, and the
    suppression cookie keeps the dispatcher quiet for its lifetime. A later
    load sees the cookies the earlier one wrote through the browser's cookie
    store. */
module Protocol {
  import opened Text
  import opened Cookies
  import opened QueryParams
  import opened Urls
  import opened Calendar
  import opened Browser
  import opened Banner
  import R = RedirectScript
  import G = LandingPageGtmTag
  import T = TargetPageScript
  import E = EnCodeBlock

  // ---------------------------------------------------------------------------
  // the suppression cookie
  // ---------------------------------------------------------------------------

  /** A cookie write, once the browser has stored it, is what a later
      `getCookie` of that name reads until it expires, except that a `Secure`
      cookie is read only on an `https:` page. */
  lemma ReadBackAfterWrite(store: seq<StoredCookie>, w: CookieWrite, nowMs: int, https: bool)
    requires WellFormedStore(store) && UniqueNames(store)
    requires WellFormedName(w.name) && WellFormedValue(w.value)
    ensures CookieValue(Jar(Apply(store, w), nowMs, https), w.name) ==
      if w.expiresAtMs > nowMs && (https || !w.secure) then Some(w.value) else None
  {
    ApplyKeepsWellFormed(store, w);
    GetCookieReadsStore(Apply(store, w), w.name, nowMs, https);
    ApplyThenLookup(store, w, w.name, nowMs, https);
  }

  /** A write that has already expired leaves nothing of that name to read,
      whatever the store held before. */
  lemma ExpiredWriteForgotten(store: seq<StoredCookie>, w: CookieWrite, nowMs: int, https: bool)
    requires WellFormedStore(store) && UniqueNames(store)
    requires WellFormedName(w.name) && WellFormedValue(w.value) && w.expiresAtMs <= nowMs
    ensures CookieValue(Jar(Apply(store, w), nowMs, https), w.name) == None
  {
    ReadBackAfterWrite(store, w, nowMs, https);
  }

  /** A `Secure` write is hidden from every `http:` page, even before it
      expires, and it hides any earlier cookie of that name too. */
  lemma SecureWriteHiddenFromHttp(store: seq<StoredCookie>, w: CookieWrite, nowMs: int)
    requires WellFormedStore(store) && UniqueNames(store)
    requires WellFormedName(w.name) && WellFormedValue(w.value) && w.secure
    ensures CookieValue(Jar(Apply(store, w), nowMs, false), w.name) == None
  {
    ReadBackAfterWrite(store, w, nowMs, false);
  }

  /** A write the browser accepts leaves the store `Apply` gives: one from an
      `https:` page, or one that neither sets nor overwrites a `Secure`
      cookie still alive at the time of the write. */
  lemma AcceptedWrite(store: seq<StoredCookie>, w: CookieWrite, https: bool, nowMs: int)
    requires https || (!w.secure && !HoldsSecure(store, w.name, nowMs))
    ensures Write(store, w, https, nowMs) == Apply(store, w)
  {
  }

  /** A page loaded after the write and before it expires reads the value
      written, provided the cookie is shown to it. */
  lemma WriteIsRead(store: seq<StoredCookie>, w: CookieWrite, later: Page)
    requires WellFormedStore(store) && UniqueNames(store)
    requires WellFormedName(w.name) && WellFormedValue(w.value)
    requires later.cookieJar == Jar(Apply(store, w), later.nowMs, SecureOn(later)) && later.nowMs < w.expiresAtMs
    requires SecureOn(later) || !w.secure
    ensures CookieValue(later.cookieJar, w.name) == Some(w.value)
  {
    ReadBackAfterWrite(store, w, later.nowMs, SecureOn(later));
  }

  /** After `redirect-script.js` has sent a visitor on, a later load on any
      date, before the suppression cookie expires, does not send them again:
      at most one redirect per suppression window. The cookie is `Secure`
      when written on an `https:` page, so the later load must then be over
      `https:` as well; and an `http:` page cannot replace a `Secure` cookie
      of that name left by an earlier `https:` visit. */
  lemma RedirectAtMostOncePerWindow(config: Option<R.Config>, store: seq<StoredCookie>,
                                    first: Page, later: Page, day1: Date, day2: Date,
                                    parse: Parser, codec: Codec)
    requires IsCalendarDate(day1) && IsCalendarDate(day2)
    requires R.Hit(config, first, day1, parse)
    requires WellFormedStore(store) && UniqueNames(store) && WellFormedName(R.CookieName(config.value))
    requires later.cookieJar == Jar(Write(store, R.SuppressionWrite(config.value, first), SecureOn(first), first.nowMs), later.nowMs, SecureOn(later))
    requires later.nowMs < ExpiryAfterDays(first.nowMs, R.DurationDays(config.value))
    requires SecureOn(later) || !SecureOn(first)
    requires SecureOn(first) || !HoldsSecure(store, R.CookieName(config.value), first.nowMs)
    ensures Navigates(R.Dispatch(config, first, day1, parse, codec))
    ensures !Navigates(R.Dispatch(config, later, day2, parse, codec))
  {
    AcceptedWrite(store, R.SuppressionWrite(config.value, first), SecureOn(first), first.nowMs);
    assert Navigates(R.Dispatch(config, first, day1, parse, codec)) by {
      R.NavigatesExactlyOnHit(config, first, day1, parse, codec);
    }
    SuppressionReadBack(config.value, store, first, later);
    SuppressedStaysPut(config, later, day2, parse, codec);
  }

  /** The window does not carry over from `https:` to `http:`: the cookie
      written on an `https:` page is `Secure`, so an `http:` load of the same
      site reads no suppression cookie and, on a date with a usable
      destination, sends the visitor away again. */
  lemma RedirectAgainOverHttp(config: Option<R.Config>, store: seq<StoredCookie>,
                              first: Page, later: Page, day1: Date, day2: Date,
                              parse: Parser, codec: Codec)
    requires IsCalendarDate(day1) && IsCalendarDate(day2)
    requires R.Hit(config, first, day1, parse)
    requires WellFormedStore(store) && UniqueNames(store) && WellFormedName(R.CookieName(config.value))
    requires later.cookieJar == Jar(Write(store, R.SuppressionWrite(config.value, first), SecureOn(first), first.nowMs), later.nowMs, SecureOn(later))
    requires SecureOn(first) && !SecureOn(later)
    requires !Has(later.search, "no-redirect")
    requires var table := config.value.urlsByDate.value; var key := R.TodayKey(later, day2);
      key in table && IsValidUrl(table[key], parse)
    ensures Navigates(R.Dispatch(config, first, day1, parse, codec))
    ensures CookieValue(later.cookieJar, R.CookieName(config.value)) == None
    ensures Navigates(R.Dispatch(config, later, day2, parse, codec))
  {
    R.NavigatesExactlyOnHit(config, first, day1, parse, codec);
    var w := R.SuppressionWrite(config.value, first);
    assert w.name == R.CookieName(config.value) && w.value == "true" && w.secure;
    AcceptedWrite(store, w, SecureOn(first), first.nowMs);
    SecureWriteHiddenFromHttp(store, w, later.nowMs);
    assert R.Hit(config, later, day2, parse);
    R.NavigatesExactlyOnHit(config, later, day2, parse, codec);
  }

  /** Nor does the window reach `http:` loads while a `Secure` suppression
      cookie of the same name, left by an earlier `https:` visit and not yet
      expired at the first load, is in the store: an `http:` page cannot replace it and is not shown it, so every
      `http:` load on a date with a usable destination redirects again. */
  lemma RedirectRepeatsUnderSecureCookie(config: Option<R.Config>, store: seq<StoredCookie>,
                                         first: Page, later: Page, day1: Date, day2: Date,
                                         parse: Parser, codec: Codec)
    requires IsCalendarDate(day1) && IsCalendarDate(day2)
    requires R.Hit(config, first, day1, parse)
    requires WellFormedStore(store) && UniqueNames(store) && WellFormedName(R.CookieName(config.value))
    requires HoldsSecure(store, R.CookieName(config.value), first.nowMs)
    requires later.cookieJar == Jar(Write(store, R.SuppressionWrite(config.value, first), SecureOn(first), first.nowMs), later.nowMs, SecureOn(later))
    requires !SecureOn(first) && !SecureOn(later)
    requires !Has(later.search, "no-redirect")
    requires var table := config.value.urlsByDate.value; var key := R.TodayKey(later, day2);
      key in table && IsValidUrl(table[key], parse)
    ensures Navigates(R.Dispatch(config, first, day1, parse, codec))
    ensures Write(store, R.SuppressionWrite(config.value, first), SecureOn(first), first.nowMs) == store
    ensures CookieValue(later.cookieJar, R.CookieName(config.value)) == None
    ensures Navigates(R.Dispatch(config, later, day2, parse, codec))
  {
    R.NavigatesExactlyOnHit(config, first, day1, parse, codec);
    var name := R.CookieName(config.value);
    assert R.SuppressionWrite(config.value, first).name == name;
    GetCookieReadsStore(store, name, later.nowMs, false);
    SecureNameHidden(store, name, first.nowMs, later.nowMs);
    assert R.Hit(config, later, day2, parse);
    R.NavigatesExactlyOnHit(config, later, day2, parse, codec);
  }

  /** A configured duration of zero days or less is kept as it is, so the
      suppression cookie is expired when written: it wipes any earlier one the
      page may replace, and suppresses nothing. */
  lemma NonPositiveDurationSuppressesNothing(c: R.Config, store: seq<StoredCookie>, first: Page, later: Page)
    requires WellFormedStore(store) && UniqueNames(store) && WellFormedName(R.CookieName(c))
    requires R.DurationDays(c) <= 0 && later.nowMs >= first.nowMs
    requires later.cookieJar == Jar(Write(store, R.SuppressionWrite(c, first), SecureOn(first), first.nowMs), later.nowMs, SecureOn(later))
    requires SecureOn(first) || !HoldsSecure(store, R.CookieName(c), first.nowMs)
    ensures CookieValue(later.cookieJar, R.CookieName(c)) == None
  {
    var w := R.SuppressionWrite(c, first);
    AcceptedWrite(store, w, SecureOn(first), first.nowMs);
    ExpiryDaysAsSeconds(first.nowMs, R.DurationDays(c));
    ExpiredWriteForgotten(store, w, later.nowMs, SecureOn(later));
  }

  /** After `landing-page-gtm-tag.js` has sent a visitor on, it does not send
      them again within a day, unless its write from an `http:` page was
      refused over a `Secure` cookie of the same name. */
  lemma GtmAtMostOncePerDay(urlsByDate: map<string, string>, store: seq<StoredCookie>,
                            first: Page, later: Page, day1: Date, day2: Date, codec: Codec)
    requires IsCalendarDate(day1) && IsCalendarDate(day2)
    requires G.Hit(urlsByDate, first, day1)
    requires WellFormedStore(store) && UniqueNames(store)
    requires later.cookieJar == Jar(Write(store, G.SuppressionWrite(first), SecureOn(first), first.nowMs), later.nowMs, SecureOn(later))
    requires later.nowMs < first.nowMs + MsPerDay
    requires SecureOn(first) || !HoldsSecure(store, G.SuppressionCookie, first.nowMs)
    ensures Navigates(G.Dispatch(urlsByDate, first, day1, codec))
    ensures !Navigates(G.Dispatch(urlsByDate, later, day2, codec))
  {
    G.SuppressionWriteMeaning(first);
    AcceptedWrite(store, G.SuppressionWrite(first), SecureOn(first), first.nowMs);
    assert Navigates(G.Dispatch(urlsByDate, first, day1, codec)) by {
      G.NavigatesExactlyOnHit(urlsByDate, first, day1, codec);
    }
    GtmSuppressionReadBack(store, first, later);
    GtmSuppressedStaysPut(urlsByDate, later, day2, codec);
  }

  /** The suppression cookie `redirect-script.js` wrote is read back as
      "true" until it expires, by any page that is shown it. */
  lemma SuppressionReadBack(c: R.Config, store: seq<StoredCookie>, first: Page, later: Page)
    requires WellFormedStore(store) && UniqueNames(store) && WellFormedName(R.CookieName(c))
    requires later.cookieJar == Jar(Apply(store, R.SuppressionWrite(c, first)), later.nowMs, SecureOn(later))
    requires later.nowMs < ExpiryAfterDays(first.nowMs, R.DurationDays(c))
    requires SecureOn(later) || !SecureOn(first)
    ensures CookieValue(later.cookieJar, R.CookieName(c)) == Some("true")
  {
    var w := R.SuppressionWrite(c, first);
    assert w.name == R.CookieName(c) && w.value == "true";
    assert w.expiresAtMs == ExpiryAfterDays(first.nowMs, R.DurationDays(c)) && w.secure == SecureOn(first);
    assert WellFormedValue(w.value);
    WriteIsRead(store, w, later);
  }

  /** The suppression cookie `landing-page-gtm-tag.js` wrote is read back as
      "true" for a day; it is never `Secure`, so over `http:` as well. */
  lemma GtmSuppressionReadBack(store: seq<StoredCookie>, first: Page, later: Page)
    requires WellFormedStore(store) && UniqueNames(store)
    requires later.cookieJar == Jar(Apply(store, G.SuppressionWrite(first)), later.nowMs, SecureOn(later))
    requires later.nowMs < first.nowMs + MsPerDay
    ensures CookieValue(later.cookieJar, G.SuppressionCookie) == Some("true")
  {
    var w := G.SuppressionWrite(first);
    G.SuppressionWriteMeaning(first);
    WriteIsRead(store, w, later);
  }

  /** A page whose jar holds a non-empty suppression cookie is not sent
      away by `redirect-script.js`. */
  lemma SuppressedStaysPut(config: Option<R.Config>, page: Page, today: Date, parse: Parser, codec: Codec)
    requires IsCalendarDate(today) && config.Some?
    requires Truthy(CookieValue(page.cookieJar, R.CookieName(config.value)))
    ensures !Navigates(R.Dispatch(config, page, today, parse, codec))
  {
    R.NavigatesExactlyOnHit(config, page, today, parse, codec);
  }

  /** The same for `landing-page-gtm-tag.js`. */
  lemma GtmSuppressedStaysPut(urlsByDate: map<string, string>, page: Page, today: Date, codec: Codec)
    requires IsCalendarDate(today)
    requires Truthy(CookieValue(page.cookieJar, G.SuppressionCookie))
    ensures !Navigates(G.Dispatch(urlsByDate, page, today, codec))
  {
    G.NavigatesExactlyOnHit(urlsByDate, page, today, codec);
  }

  // ---------------------------------------------------------------------------
  // the handoff to the destination
  // ---------------------------------------------------------------------------

  /** The destination page loaded from the address the dispatcher built
      knows it was redirected, so it shows the banner whenever it has a body;
      its `originating-url` is the address the visitor left, unless the
      destination or the visitor's own parameters already carried one, which
      then wins. */
  lemma Handoff(dest: string, current: Query, href: string, codec: Codec, landing: Page)
    requires Faithful(codec) && '#' !in dest
    requires landing.search == Parse(QueryText(BuildRedirectUrl(dest, current, href, codec)), codec)
    ensures Has(landing.search, RedirectedParam)
    ensures forall cookie :: ShowsBanner(landing, cookie) <==> landing.hasBody
    ensures var before := Parse(QueryText(dest), codec) + current;
      Get(landing.search, OriginatingUrlParam) ==
        if Has(before, OriginatingUrlParam) then Get(before, OriginatingUrlParam) else Some(href)
  {
    var before := Parse(QueryText(dest), codec) + current;
    RedirectUrlRoundTrip(dest, current, href, codec);
    assert landing.search == before + Markers(href);
    assert landing.search[|before|].0 == RedirectedParam;
    GetConcat(before, Markers(href), OriginatingUrlParam);
  }

  /** On a clean handoff the validating banner takes the visitor's address
      as the originating one, and saves it exactly when it is a valid
      `http`/`https` address. */
  lemma HandoffToTargetPage(dest: string, current: Query, href: string, codec: Codec, landing: Page, parse: Parser)
    requires Faithful(codec) && '#' !in dest && href != ""
    requires !Has(Parse(QueryText(dest), codec) + current, OriginatingUrlParam)
    requires landing.search == Parse(QueryText(BuildRedirectUrl(dest, current, href, codec)), codec)
    ensures T.Originating(landing) == href
    ensures T.SavesParam(landing, parse) <==> IsValidUrl(href, parse)
    ensures E.Originating(landing) == href && E.SavesParam(landing)
  {
    Handoff(dest, current, href, codec, landing);
  }

  // ---------------------------------------------------------------------------
  // the banner cookie
  // ---------------------------------------------------------------------------

  /** Once `target-page-script.js` has saved the originating address, a
      later load without the parameter, before the cookie expires, still
      knows it and shows the banner whenever the page has a body. The cookie
      is `Secure` when written on an `https:` page, so the later load must
      then be over `https:` as well; and an `http:` page cannot replace a
      `Secure` `originatingUrl` cookie left by an earlier `https:` visit. */
  lemma TargetPageRemembers(c: T.Config, store: seq<StoredCookie>, first: Page, later: Page, parse: Parser)
    requires T.SavesParam(first, parse)
    requires WellFormedStore(store) && UniqueNames(store)
    requires WellFormedValue(Get(first.search, OriginatingUrlParam).value)
    requires later.cookieJar == Jar(Write(store, T.OriginatingWrite(c, first, Get(first.search, OriginatingUrlParam).value), SecureOn(first), first.nowMs), later.nowMs, SecureOn(later))
    requires later.nowMs < ExpiryAfterSeconds(first.nowMs, T.ExpirationSeconds(c))
    requires SecureOn(later) || !SecureOn(first)
    requires SecureOn(first) || !HoldsSecure(store, OriginatingUrlCookie, first.nowMs)
    requires !Truthy(Get(later.search, OriginatingUrlParam))
    ensures T.Originating(later) == Get(first.search, OriginatingUrlParam).value
    ensures ShowsBanner(later, CookieValue(later.cookieJar, OriginatingUrlCookie)) <==> later.hasBody
  {
    var v := Get(first.search, OriginatingUrlParam).value;
    var w := T.OriginatingWrite(c, first, v);
    assert w.name == OriginatingUrlCookie && w.value == v && w.secure == SecureOn(first);
    assert w.expiresAtMs == ExpiryAfterSeconds(first.nowMs, T.ExpirationSeconds(c));
    AcceptedWrite(store, w, SecureOn(first), first.nowMs);
    OriginatingReadBack(store, w, later);
  }

  /** The `originatingUrl` cookie written on an `https:` page is `Secure`: a
      later `http:` load without the parameter does not know the originating
      address, and shows the banner only when it was redirected or is in a
      frame. */
  lemma TargetPageForgetsOverHttp(c: T.Config, store: seq<StoredCookie>, first: Page, later: Page, parse: Parser)
    requires T.SavesParam(first, parse)
    requires WellFormedStore(store) && UniqueNames(store)
    requires WellFormedValue(Get(first.search, OriginatingUrlParam).value)
    requires later.cookieJar == Jar(Write(store, T.OriginatingWrite(c, first, Get(first.search, OriginatingUrlParam).value), SecureOn(first), first.nowMs), later.nowMs, SecureOn(later))
    requires SecureOn(first) && !SecureOn(later)
    requires !Truthy(Get(later.search, OriginatingUrlParam))
    ensures CookieValue(later.cookieJar, OriginatingUrlCookie) == None
    ensures T.Originating(later) == ""
    ensures ShowsBanner(later, CookieValue(later.cookieJar, OriginatingUrlCookie)) <==>
      (Has(later.search, RedirectedParam) || later.inIframe) && later.hasBody
  {
    var v := Get(first.search, OriginatingUrlParam).value;
    var w := T.OriginatingWrite(c, first, v);
    assert w.name == OriginatingUrlCookie && w.value == v && w.secure;
    AcceptedWrite(store, w, SecureOn(first), first.nowMs);
    OriginatingUrlCookieWellFormed();
    SecureWriteHiddenFromHttp(store, w, later.nowMs);
  }

  /** The same for `en-code-block.js`, whose cookie lives half an hour and is
      never `Secure`; its write from an `http:` page is refused only over a
      `Secure` cookie of that name. */
  lemma EnCodeBlockRemembers(store: seq<StoredCookie>, first: Page, later: Page)
    requires E.SavesParam(first)
    requires WellFormedStore(store) && UniqueNames(store)
    requires WellFormedValue(Get(first.search, OriginatingUrlParam).value)
    requires later.cookieJar == Jar(Write(store, E.OriginatingWrite(first, Get(first.search, OriginatingUrlParam).value), SecureOn(first), first.nowMs), later.nowMs, SecureOn(later))
    requires later.nowMs < first.nowMs + 1800000
    requires SecureOn(first) || !HoldsSecure(store, OriginatingUrlCookie, first.nowMs)
    requires !Truthy(Get(later.search, OriginatingUrlParam))
    ensures E.Originating(later) == Get(first.search, OriginatingUrlParam).value
    ensures ShowsBanner(later, CookieValue(later.cookieJar, OriginatingUrlCookie)) <==> later.hasBody
  {
    var v := Get(first.search, OriginatingUrlParam).value;
    var w := E.OriginatingWrite(first, v);
    assert w.name == OriginatingUrlCookie && w.value == v;
    assert w.expiresAtMs == first.nowMs + 1800000 && !w.secure;
    AcceptedWrite(store, w, SecureOn(first), first.nowMs);
    OriginatingReadBack(store, w, later);
  }

  /** The `originatingUrl` cookie a banner wrote is read back by a later
      load it is shown to until it expires. */
  lemma OriginatingReadBack(store: seq<StoredCookie>, w: CookieWrite, later: Page)
    requires WellFormedStore(store) && UniqueNames(store)
    requires w.name == OriginatingUrlCookie && WellFormedValue(w.value)
    requires later.cookieJar == Jar(Apply(store, w), later.nowMs, SecureOn(later)) && later.nowMs < w.expiresAtMs
    requires SecureOn(later) || !w.secure
    ensures CookieValue(later.cookieJar, OriginatingUrlCookie) == Some(w.value)
  {
    OriginatingUrlCookieWellFormed();
    WriteIsRead(store, w, later);
  }

  // ---------------------------------------------------------------------------
  // the way back
  // ---------------------------------------------------------------------------

  /** The page the back link of `target-page-script.js` leads to carries
      `no-redirect`, so either dispatcher there only writes its suppression
      cookie and does not send the visitor away again. */
  lemma TargetPageBackLinkOptsOut(originating: string, page: Page, parse: Parser, codec: Codec,
                                  config: Option<R.Config>, urlsByDate: map<string, string>,
                                  back: Page, today: Date)
    requires Faithful(codec) && IsCalendarDate(today)
    requires var f := FallbackUrl(originating, page); parse(f).Some? ==> WellFormedUrl(parse(f).value)
    requires T.ClickTarget(originating, page, parse, codec).Some?
    requires back.search == Parse(QueryText(T.ClickTarget(originating, page, parse, codec).value), codec)
    ensures R.Configured(config) ==>
      R.Dispatch(config, back, today, parse, codec) == [SetCookie(R.SuppressionWrite(config.value, back))]
    ensures !Navigates(R.Dispatch(config, back, today, parse, codec))
    ensures G.Dispatch(urlsByDate, back, today, codec) == [SetCookie(G.SuppressionWrite(back))]
  {
    T.ClickTargetMeaning(originating, page, parse, codec);
    assert Has(back.search, NoRedirectParam);
    R.NavigatesExactlyOnHit(config, back, today, parse, codec);
  }

  /** The same for `en-code-block.js` whenever the parser accepts the
      address its link falls back to. */
  lemma EnCodeBlockBackLinkOptsOut(originating: string, page: Page, parse: Parser, codec: Codec,
                                   config: Option<R.Config>, urlsByDate: map<string, string>,
                                   back: Page, today: Date)
    requires Faithful(codec) && IsCalendarDate(today)
    requires var f := FallbackUrl(originating, page); parse(f).Some? && WellFormedUrl(parse(f).value)
    requires back.search == Parse(QueryText(E.ClickTarget(originating, page, parse, codec)), codec)
    ensures R.Configured(config) ==>
      R.Dispatch(config, back, today, parse, codec) == [SetCookie(R.SuppressionWrite(config.value, back))]
    ensures !Navigates(R.Dispatch(config, back, today, parse, codec))
    ensures G.Dispatch(urlsByDate, back, today, codec) == [SetCookie(G.SuppressionWrite(back))]
  {
    E.ClickTargetMeaning(originating, page, parse, codec);
    assert Has(back.search, NoRedirectParam);
    R.NavigatesExactlyOnHit(config, back, today, parse, codec);
  }

  /** The validating banner refuses to follow an originating address that is
      not `http`/`https`, where the older code block follows it as long as
      the parser accepts it. */
  lemma OnlyOlderBannerFollowsOtherSchemes(originating: string, page: Page, parse: Parser, codec: Codec)
    requires originating != "" && parse(originating).Some? && !IsHttpScheme(parse(originating).value)
    ensures T.ClickTarget(originating, page, parse, codec).None?
    ensures E.ClickTarget(originating, page, parse, codec) == UrlString(WithNoRedirect(parse(originating).value), codec)
  {
  }
}
